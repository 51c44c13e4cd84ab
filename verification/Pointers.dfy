/** Pointers into an arena of nodes. */
module Pointers {
  datatype Ptr = Null | At(id: nat)

  /** The pointer to position `i` of a linked list; null just behind its end. */
  function PtrAt(c: seq<nat>, i: nat): Ptr {
    if i < |c| then At(c[i]) else Null
  }

  ghost predicate Distinct(c: seq<nat>) {
    forall i, j :: 0 <= i < j < |c| ==> c[i] != c[j]
  }
}
