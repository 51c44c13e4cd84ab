/** Multikmp/multikmp.c: the optimised failure table, and what a mismatch lets the matching loop skip. */
module Kmp {
  import opened Strings

  /** The first `j` bytes of `t` are a proper border of its first `v` bytes. */
  ghost predicate Border(t: Str, j: int, v: int) {
    0 <= j < v <= |t| && t[..j] == t[v - j..v]
  }

  /** A border that the mismatch of byte `v` does not rule out. */
  ghost predicate Usable(t: Str, j: int, v: int) {
    Border(t, j, v) && At(t, j) != At(t, v)
  }

  /** `r` is the largest usable border of the first `v` bytes, or -1 when there is none. */
  ghost predicate IsNextVal(t: Str, v: int, r: int) {
    && (r == -1 || Usable(t, r, v))
    && forall j :: r < j && Border(t, j, v) ==> At(t, j) == At(t, v)
  }

  ghost predicate IsNextTable(t: Str, next: seq<int>) {
    |next| > |t| && forall v :: 0 <= v <= |t| ==> IsNextVal(t, v, next[v])
  }

  lemma BorderExtends(t: Str, j: int, v: int)
    requires 0 <= j < v < |t|
    ensures Border(t, j + 1, v + 1) <==> Border(t, j, v) && t[j] == t[v]
  {
    assert t[..j + 1] == t[..j] + [t[j]];
    assert t[v - j..v + 1] == t[v - j..v] + [t[v]];
    if Border(t, j + 1, v + 1) {
      assert t[..j] == t[..j + 1][..j] == t[v - j..v + 1][..j] == t[v - j..v];
      assert t[j] == t[..j + 1][j] == t[v - j..v + 1][j];
    }
  }

  /** No border longer than `j` survives: the candidates already tried for byte `i`. */
  ghost predicate OnlyUpTo(t: Str, j: int, i: int) {
    forall b :: b > j && Border(t, b, i) ==> At(t, b) != At(t, i)
  }

  ghost predicate LongestBorder(t: Str, j: int, i: int) {
    Border(t, j, i) && forall b :: j < b ==> !Border(t, b, i)
  }

  /** After a match (or with no candidate left) `j + 1` is the longest border one byte further. */
  lemma LongestExtends(t: Str, j: int, i: int)
    requires 0 <= i < |t| && (j == -1 || (Border(t, j, i) && t[j] == t[i])) && OnlyUpTo(t, j, i)
    ensures LongestBorder(t, j + 1, i + 1) && Border(t, j + 1, i + 1) && OnlyUpTo(t, j + 1, i + 1)
  {
    if j >= 0 {
      BorderExtends(t, j, i);
    }
    forall b {:trigger Border(t, b, i + 1)} | j + 1 < b <= i
      ensures !Border(t, b, i + 1)
    {
      BorderExtends(t, b - 1, i);
    }
  }

  /** The entry the code stores for `i`, when `j` is the longest border of the first `i` bytes. */
  lemma EntryIsNextVal(t: Str, j: int, i: int, nj: int)
    requires LongestBorder(t, j, i) && IsNextVal(t, j, nj)
    ensures IsNextVal(t, i, if At(t, i) != At(t, j) then j else nj)
  {
  }

  /** Following the optimised table discards only borders that fail on byte `i` as well. */
  lemma FollowNext(t: Str, j: int, i: int, nj: int)
    requires Border(t, j, i) && At(t, j) != At(t, i) && OnlyUpTo(t, j, i) && IsNextVal(t, j, nj)
    ensures -1 <= nj < j && (nj == -1 || Border(t, nj, i))
    ensures OnlyUpTo(t, nj, i)
  {
  }

  lemma NextStarts(t: Str)
    ensures OnlyUpTo(t, -1, 0) && IsNextVal(t, 0, -1)
  {
  }

  /** get_next: fills the table in place while already following its optimised entries. */
  method GetNext(t: Str, next: array<int>)
    requires NulFree(t) && next.Length > |t|
    modifies next
    ensures IsNextTable(t, next[..])
    ensures next[|t| + 1..] == old(next[|t| + 1..])
  {
    hide OnlyUpTo, IsNextVal, LongestBorder;
    NextStarts(t);
    var i, j := 0, -1;
    next[0] := -1;
    while i < |t|
      invariant 0 <= i <= |t| && -1 <= j && (j == -1 || Border(t, j, i))
      invariant OnlyUpTo(t, j, i)
      invariant forall v :: 0 <= v <= i ==> IsNextVal(t, v, next[v])
      invariant next[|t| + 1..] == old(next[|t| + 1..])
      decreases |t| - i, j
    {
      if j == -1 || At(t, i) == At(t, j) {
        LongestExtends(t, j, i);
        i := i + 1;
        j := j + 1;
        EntryIsNextVal(t, j, i, next[j]);
        if At(t, i) != At(t, j) {
          next[i] := j;
        } else {
          next[i] := next[j];
        }
      } else {
        FollowNext(t, j, i, next[j]);
        j := next[j];
      }
    }
  }

  /** The candidate start `k - v` matches so far, and every earlier start has been decided. */
  ghost predicate Scanning(p: Str, s: Str, k: int, v: int) {
    0 <= v <= |p| && v <= k <= |s| && s[k - v..k] == p[..v]
  }

  lemma PartialMatchExtends(p: Str, s: Str, k: int, v: int)
    requires Scanning(p, s, k, v) && k < |s| && v < |p| && s[k] == p[v]
    ensures Scanning(p, s, k + 1, v + 1)
  {
    assert s[k - v..k + 1] == s[k - v..k] + [s[k]];
    assert p[..v + 1] == p[..v] + [p[v]];
  }

  /** A mismatch never moves the candidate start past an unseen match. */
  lemma MismatchSkips(p: Str, s: Str, k: int, v: int, r: int)
    requires Scanning(p, s, k, v) && k < |s| && v < |p| && s[k] != p[v] && IsNextVal(p, v, r)
    ensures CountBefore(p, s, k - v) == CountBefore(p, s, k - r)
    ensures r == -1 || (0 <= r < v && Scanning(p, s, k, r))
  {
    forall q | k - v <= q < k - r && q <= k
      ensures !OccursAt(p, s, q)
    {
      NoMatchBetween(p, s, k, v, r, q);
    }
    CountSkips(p, s, k - v, k - r);
    if r != -1 {
      assert s[k - r..k] == s[k - v..k][v - r..] == p[..v][v - r..] == p[v - r..v];
    }
  }

  /** An occurrence that overlaps the partial match makes the overlap a border of it, and agrees
      with the text on byte `k`. */
  lemma OverlapFacts(p: Str, s: Str, k: int, v: int, q: int)
    requires Scanning(p, s, k, v) && k < |s| && v < |p| && k - v <= q <= k && OccursAt(p, s, q)
    ensures q > k - v ==> Border(p, k - q, v)
    ensures s[k] == p[k - q]
  {
  }

  lemma NoMatchBetween(p: Str, s: Str, k: int, v: int, r: int, q: int)
    requires Scanning(p, s, k, v) && k < |s| && v < |p| && s[k] != p[v] && IsNextVal(p, v, r)
    requires k - v <= q < k - r && q <= k
    ensures !OccursAt(p, s, q)
  {
    if OccursAt(p, s, q) {
      OverlapFacts(p, s, k, v, q);
    }
  }

  /** A complete match is one more occurrence. */
  lemma FullMatchCounts(p: Str, s: Str, k: int)
    requires Scanning(p, s, k, |p|)
    ensures CountBefore(p, s, k - |p| + 1) == CountBefore(p, s, k - |p|) + 1
  {
  }
}
