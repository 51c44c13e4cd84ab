/** hash.h: linked chains of counting entries. Entries live in an arena, a pointer is an index, and
    relinking overwrites `next` fields in place. */
module Chains {
  import opened Pointers

  /** A key is the string pointer itself: two keys are equal when the addresses are. */
  datatype Entry = Entry(key: nat, value: nat, next: Ptr)

  ghost predicate InArena(cells: seq<Entry>, c: seq<nat>) {
    forall i :: 0 <= i < |c| ==> c[i] < |cells|
  }

  /** Following `next` from `head` visits exactly the entries of `c`, in order. */
  ghost predicate IsChain(cells: seq<Entry>, head: Ptr, c: seq<nat>) {
    && head == PtrAt(c, 0)
    && Distinct(c) && InArena(cells, c)
    && forall i {:trigger cells[c[i]]} :: 0 <= i < |c| ==> cells[c[i]].next == PtrAt(c, i + 1)
  }

  /** Values never grow along a chain. */
  ghost predicate Ordered(cells: seq<Entry>, c: seq<nat>)
    requires InArena(cells, c)
  {
    forall i, j :: 0 <= i < j < |c| ==> cells[c[i]].value >= cells[c[j]].value
  }

  /** Only `next` fields of entries of `c` differ. */
  ghost predicate Relinked(before: seq<Entry>, after: seq<Entry>, c: seq<nat>) {
    && |before| == |after|
    && (forall i :: 0 <= i < |before| ==> after[i].key == before[i].key && after[i].value == before[i].value)
    && (forall i :: 0 <= i < |before| && i !in c ==> after[i] == before[i])
  }

  /** The chain with its `k`-th entry moved forward to position `p`. */
  ghost function MovedTo(c: seq<nat>, k: nat, p: nat): (r: seq<nat>)
    requires p <= k < |c|
    ensures |r| == |c| && multiset(r) == multiset(c)
  {
    assert c == c[..p] + c[p..k] + [c[k]] + c[k + 1..];
    c[..p] + [c[k]] + c[p..k] + c[k + 1..]
  }

  /** `c[k]` has just grown by one in an ordered chain. */
  ghost predicate OrderedBut(cells: seq<Entry>, c: seq<nat>, k: nat)
    requires k < |c| && InArena(cells, c)
  {
    && (forall i, j :: 0 <= i < j < |c| && i != k && j != k ==> cells[c[i]].value >= cells[c[j]].value)
    && (forall i :: 0 <= i < k ==> cells[c[i]].value + 1 >= cells[c[k]].value)
    && (forall j :: k < j < |c| ==> cells[c[k]].value >= cells[c[j]].value)
  }

  /** Moving the grown entry in front of the first smaller one restores the order. */
  lemma MoveRestoresOrder(cells: seq<Entry>, c: seq<nat>, k: nat, p: nat)
    requires p <= k < |c| && InArena(cells, c) && OrderedBut(cells, c, k)
    requires forall i :: 0 <= i < p ==> cells[c[i]].value >= cells[c[k]].value
    requires forall i :: p <= i < k ==> cells[c[k]].value >= cells[c[i]].value
    ensures InArena(cells, MovedTo(c, k, p)) && Ordered(cells, MovedTo(c, k, p))
  {
  }

  /** Where `next` of the `i`-th entry has to point after entry `k` has moved to position `p`. */
  ghost function NextAfterMove(c: seq<nat>, k: nat, p: nat, i: nat): Ptr
    requires p < k < |c| && i < |c|
  {
    if i == k then At(c[p])
    else if i + 1 == p then At(c[k])
    else if i + 1 == k then PtrAt(c, k + 1)
    else PtrAt(c, i + 1)
  }

  /** Which entry of `c` stands at position `i` after the move. */
  function SourceIndex(k: nat, p: nat, i: nat): nat
    requires p <= k
  {
    if i < p || k < i then i else if i == p then k else i - 1
  }

  lemma MovedDistinct(c: seq<nat>, k: nat, p: nat)
    requires p <= k < |c| && Distinct(c)
    ensures Distinct(MovedTo(c, k, p))
  {
  }

  lemma RelinkedIsChain(cells: seq<Entry>, head: Ptr, c: seq<nat>, k: nat, p: nat)
    requires p < k < |c| && Distinct(c) && InArena(cells, c)
    requires head == At(if p == 0 then c[k] else c[0])
    requires forall i {:trigger cells[c[i]]} :: 0 <= i < |c| ==> cells[c[i]].next == NextAfterMove(c, k, p, i)
    ensures IsChain(cells, head, MovedTo(c, k, p))
  {
    MovedDistinct(c, k, p);
    hide MovedTo, Distinct, NextAfterMove;
    var m := MovedTo(c, k, p);
    forall i | 0 <= i < |m|
      ensures m[i] < |cells| && cells[m[i]].next == PtrAt(m, i + 1)
    {
      assert m[i] == c[SourceIndex(k, p, i)];
    }
  }

  /** Overwriting the `next` field of one entry. */
  function SetNext(cells: seq<Entry>, p: nat, q: Ptr): seq<Entry>
    requires p < |cells|
  {
    cells[p := cells[p].(next := q)]
  }

  /** The arena after the three stores that move `c[k]` behind `c[l]`. */
  function MoveStores(cells: seq<Entry>, last: nat, ep: nat, pre: nat): seq<Entry>
    requires last < |cells| && ep < |cells| && pre < |cells|
  {
    var c1 := SetNext(cells, last, cells[ep].next);
    var c2 := SetNext(c1, ep, c1[pre].next);
    SetNext(c2, pre, At(ep))
  }

  lemma MoveStoresRelink(cells: seq<Entry>, last: nat, ep: nat, pre: nat, c: seq<nat>)
    requires last in c && ep in c && pre in c && last < |cells| && ep < |cells| && pre < |cells|
    ensures Relinked(cells, MoveStores(cells, last, ep, pre), c)
  {
  }

  lemma MoveStoresNext(cells: seq<Entry>, c: seq<nat>, k: nat, l: nat, i: nat)
    requires l + 1 < k < |c| && IsChain(cells, At(c[0]), c) && i < |c|
    ensures MoveStores(cells, c[k - 1], c[k], c[l])[c[i]].next == NextAfterMove(c, k, l + 1, i)
  {
  }

  lemma MovedBehind(cells: seq<Entry>, c: seq<nat>, k: nat, l: nat)
    requires l < k < |c| && IsChain(cells, At(c[0]), c)
    ensures var after := MoveStores(cells, c[k - 1], c[k], c[l]);
            IsChain(after, At(c[0]), MovedTo(c, k, l + 1)) && Relinked(cells, after, c)
  {
    MoveStoresRelink(cells, c[k - 1], c[k], c[l], c);
    hide IsChain, MovedTo, Relinked, MoveStores;
    if l + 1 < k {
      MovedFarther(cells, c, k, l);
    } else {
      AdjacentStores(cells, c, k);
    }
  }

  lemma MovedFarther(cells: seq<Entry>, c: seq<nat>, k: nat, l: nat)
    requires l + 1 < k < |c| && IsChain(cells, At(c[0]), c)
    ensures IsChain(MoveStores(cells, c[k - 1], c[k], c[l]), At(c[0]), MovedTo(c, k, l + 1))
  {
    var after := MoveStores(cells, c[k - 1], c[k], c[l]);
    forall i: nat | i < |c|
      ensures c[i] < |after| && after[c[i]].next == NextAfterMove(c, k, l + 1, i)
    {
      MoveStoresNext(cells, c, k, l, i);
    }
    hide MoveStores, MovedTo, NextAfterMove;
    RelinkedIsChain(after, At(c[0]), c, k, l + 1);
  }

  /** An entry directly behind its new predecessor stays where it is. */
  lemma AdjacentStores(cells: seq<Entry>, c: seq<nat>, k: nat)
    requires 0 < k < |c| && IsChain(cells, At(c[0]), c)
    ensures MoveStores(cells, c[k - 1], c[k], c[k - 1]) == cells && MovedTo(c, k, k) == c
  {
  }

  /** The two stores that move `c[k]` to the front. */
  lemma MovedInFront(cells: seq<Entry>, c: seq<nat>, k: nat)
    requires 0 < k < |c| && IsChain(cells, At(c[0]), c)
    ensures var c1 := SetNext(cells, c[k - 1], cells[c[k]].next);
            var c2 := SetNext(c1, c[k], At(c[0]));
            IsChain(c2, At(c[k]), MovedTo(c, k, 0)) && Relinked(cells, c2, c)
  {
    var c1 := SetNext(cells, c[k - 1], cells[c[k]].next);
    var c2 := SetNext(c1, c[k], At(c[0]));
    RelinkedIsChain(c2, At(c[k]), c, k, 0);
  }

  /** `d` is the chain `c` relinked so that it is ordered again after `c[k]` has grown. */
  ghost predicate Reordered(before: seq<Entry>, after: seq<Entry>, head: Ptr, c: seq<nat>, d: seq<nat>) {
    && multiset(d) == multiset(c)
    && IsChain(after, head, d)
    && Ordered(after, d)
    && Relinked(before, after, c)
  }

  /** The facts about one entry that its pointers need. */
  lemma ChainFacts(cells: seq<Entry>, c: seq<nat>, k: nat)
    requires k < |c| && IsChain(cells, At(c[0]), c)
    ensures InArena(cells, c) && (c[0] == c[k] ==> k == 0)
  {
  }

  lemma FrontIsReordered(cells: seq<Entry>, c: seq<nat>)
    requires 0 < |c| && IsChain(cells, At(c[0]), c) && OrderedBut(cells, c, 0)
    ensures Reordered(cells, cells, At(c[0]), c, c)
  {
  }

  lemma MovedIsReordered(before: seq<Entry>, after: seq<Entry>, head: Ptr, c: seq<nat>, k: nat, p: nat)
    requires p <= k < |c| && InArena(before, c) && OrderedBut(before, c, k)
    requires forall i :: 0 <= i < p ==> before[c[i]].value >= before[c[k]].value
    requires forall i :: p <= i < k ==> before[c[k]].value >= before[c[i]].value
    requires IsChain(after, head, MovedTo(c, k, p)) && Relinked(before, after, c)
    ensures Reordered(before, after, head, c, MovedTo(c, k, p))
  {
    MoveRestoresOrder(before, c, k, p);
    var d := MovedTo(c, k, p);
    hide MovedTo, OrderedBut;
    assert forall i :: 0 <= i < |d| ==> after[d[i]].value == before[d[i]].value;
  }
}
