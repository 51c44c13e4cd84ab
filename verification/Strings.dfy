/** C strings as byte sequences, and the reference notion every matcher is measured against:
    the number of positions of a text at which a pattern occurs, overlaps included. */
module Strings {
  type Byte = bv8
  type Str = seq<Byte>

  /** A C string holds no NUL; the terminator sits just behind the last byte. */
  ghost predicate NulFree(s: Str) {
    forall i :: 0 <= i < |s| ==> s[i] != 0
  }

  /** What `s[i]` reads in C, for an index up to and including the terminator. */
  function At(s: Str, i: nat): Byte
    requires i <= |s|
  {
    if i < |s| then s[i] else 0
  }

  ghost predicate IsSuffix(p: Str, s: Str) {
    |p| <= |s| && s[|s| - |p|..] == p
  }

  /** Pattern `p` occurs in `t` at position `i`. */
  ghost predicate OccursAt(p: Str, t: Str, i: int) {
    0 <= i <= |t| - |p| && t[i..i + |p|] == p
  }

  ghost function Positions(p: Str, t: Str, n: int): set<int> {
    set i | 0 <= i < n && OccursAt(p, t, i)
  }

  /** The number of positions at which `p` occurs in `t`. */
  ghost function Occurrences(p: Str, t: Str): nat {
    |Positions(p, t, |t| + 1)|
  }

  /** The same number, built up one candidate position at a time. */
  ghost function CountBefore(p: Str, t: Str, n: int): nat {
    if n <= 0 then 0 else CountBefore(p, t, n - 1) + if OccursAt(p, t, n - 1) then 1 else 0
  }

  lemma {:induction false} CountIsCardinality(p: Str, t: Str, n: int)
    ensures CountBefore(p, t, n) == |Positions(p, t, n)|
  {
    hide OccursAt;
    if n <= 0 {
      assert Positions(p, t, n) == {};
    } else {
      CountIsCardinality(p, t, n - 1);
      if OccursAt(p, t, n - 1) {
        assert Positions(p, t, n) == Positions(p, t, n - 1) + {n - 1};
      } else {
        assert Positions(p, t, n) == Positions(p, t, n - 1);
      }
    }
  }

  /** Positions that cannot hold the pattern may be skipped. */
  lemma {:induction false} CountSkips(p: Str, t: Str, m: int, n: int)
    requires m <= n
    requires forall i :: m <= i < n ==> !OccursAt(p, t, i)
    ensures CountBefore(p, t, m) == CountBefore(p, t, n)
    decreases n - m
  {
    if m < n {
      CountSkips(p, t, m, n - 1);
    }
  }

  /** Counting up to the last position at which the pattern still fits counts everything. */
  lemma CountIsOccurrences(p: Str, t: Str, n: int)
    requires |t| - |p| < n <= |t| + 1
    ensures CountBefore(p, t, n) == Occurrences(p, t)
  {
    CountSkips(p, t, n, |t| + 1);
    CountIsCardinality(p, t, |t| + 1);
  }

  /** The pattern ends at `n + 1` exactly when it is a suffix of the text read so far. */
  lemma SuffixIsOccurrence(p: Str, t: Str, n: nat)
    requires n <= |t|
    ensures IsSuffix(p, t[..n]) <==> OccursAt(p, t, n - |p|)
  {
  }
}
