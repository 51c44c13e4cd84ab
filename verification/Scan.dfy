/** Multikmp/multikmp.c and strstr/strstr.c: the matching loop that rewinds after every hit and the
    brute-force loop, what they count and exactly which bytes they compare. */
module Scan {
  import opened Strings
  import opened Kmp

  // ---- which comparisons KMP makes ----

  /** From start `q` the bytes before `k` agree, and the pattern goes on. */
  ghost predicate Live(p: Str, s: Str, q: int, k: int) {
    0 <= q <= k <= |s| && k - q < |p| && s[q..k] == p[..k - q]
  }

  /** A match starting in between has made the loop rewind; one that ends the text does not. */
  ghost predicate Rewound(p: Str, s: Str, from: int, to: int) {
    exists o :: from <= o < to && OccursAt(p, s, o) && o + |p| < |s|
  }

  /** An earlier start that is still alive at byte `k`. */
  ghost predicate Rival(p: Str, s: Str, r: int, q: int, k: int) {
    r < q && Live(p, s, r, k) && !Rewound(p, s, r, q)
  }

  ghost predicate Nearest(p: Str, s: Str, r: int, q: int, k: int) {
    Rival(p, s, r, q, k) && forall x :: r < x < q ==> !Rival(p, s, x, q, k)
  }

  /** Byte `k` is compared for start `q`: the start is alive, no earlier one that is alive agrees on the
      byte, and the nearest of them expects another byte there, so that its mismatch did not already
      decide this one. */
  ghost predicate Compared(p: Str, s: Str, q: int, k: int) {
    && k < |s| && Live(p, s, q, k)
    && (forall r :: Rival(p, s, r, q, k) ==> s[k] != p[k - r])
    && (forall r :: Nearest(p, s, r, q, k) ==> p[k - r] != p[k - q])
  }

  ghost function ComparedPairs(p: Str, s: Str): set<(int, int)> {
    set q, k | 0 <= q <= k < |s| && Compared(p, s, q, k) :: (q, k)
  }

  /** Those made before byte `k` is compared for start `q`. */
  ghost function Done(p: Str, s: Str, q: int, k: int): set<(int, int)> {
    set a, b | 0 <= a <= b < |s| && Compared(p, s, a, b) && (a < q || (a == q && b < k)) :: (a, b)
  }

  lemma LiveBefore(p: Str, s: Str, q: int, k: int, j: int)
    requires Live(p, s, q, k) && q <= j < k
    ensures Live(p, s, q, j) && s[j] == p[j - q]
  {
    assert s[q..j] == s[q..k][..j - q] && p[..j - q] == p[..k - q][..j - q];
    assert s[j] == s[q..k][j - q] == p[..k - q][j - q];
  }

  lemma NearestRival(p: Str, s: Str, r: int, q: int, k: int, top: int) returns (n: int)
    requires Rival(p, s, r, q, k) && r < top <= q && forall x :: top <= x < q ==> !Rival(p, s, x, q, k)
    ensures r <= n && Nearest(p, s, n, q, k)
    decreases top - r
  {
    hide Rival;
    if Rival(p, s, top - 1, q, k) {
      n := top - 1;
    } else {
      n := NearestRival(p, s, r, q, k, top - 1);
    }
  }

  lemma NothingDone(p: Str, s: Str)
    requires 0 < |p|
    ensures |Done(p, s, 0, 0)| == 0
    ensures 0 < |s| ==> Compared(p, s, 0, 0)
  {
    assert Done(p, s, 0, 0) == {};
  }

  /** After a match the start stays, and no earlier one is alive any more. */
  lemma MatchStep(p: Str, s: Str, q: int, k: int)
    requires Compared(p, s, q, k) && s[k] == p[k - q]
    ensures k + 1 < |s| && k + 1 - q < |p| ==> Compared(p, s, q, k + 1)
    ensures Done(p, s, q, k + 1) == Done(p, s, q, k) + {(q, k)} && (q, k) !in Done(p, s, q, k)
  {
    var next := k + 1;
    if next < |s| && next - q < |p| {
      assert s[q..k + 1] == s[q..k] + [s[k]] && p[..k + 1 - q] == p[..k - q] + [p[k - q]];
      forall r | Rival(p, s, r, q, next)
        ensures Rival(p, s, r, q, k) && s[k] == p[k - r]
      {
        LiveBefore(p, s, r, next, k);
      }
    }
    hide Compared;
  }

  /** What the loop relies on when byte `k` mismatches for start `q`, `r` being the table entry. */
  ghost predicate Mismatch(p: Str, s: Str, q: int, k: int, r: int) {
    && Compared(p, s, q, k) && s[k] != p[k - q] && IsNextVal(p, k - q, r) && -1 <= r < k - q
  }

  /** Where the next candidate starts. */
  function NextStart(k: int, r: int): int {
    k - r
  }

  lemma NotRewound(p: Str, s: Str, q: int, k: int, r: int, a: int)
    requires Mismatch(p, s, q, k, r) && q < a <= NextStart(k, r)
    ensures !Rewound(p, s, q, a)
  {
    forall o | q <= o < a
      ensures !OccursAt(p, s, o)
    {
      NoMatchBetween(p, s, k, k - q, r, o);
    }
  }

  /** A start passed over that is alive at byte `k` expects the byte that has just mismatched. */
  lemma PassedOver(p: Str, s: Str, q: int, k: int, r: int, a: int)
    requires Mismatch(p, s, q, k, r) && q < a < NextStart(k, r) && Live(p, s, a, k)
    ensures p[k - a] == p[k - q] != s[k]
  {
    var v := k - q;
    assert s[a..k] == s[q..k][a - q..] == p[..v][a - q..] == p[a - q..v];
    assert Border(p, k - a, v);
  }

  lemma StillRival(p: Str, s: Str, q: int, k: int, r: int, a: int)
    requires Mismatch(p, s, q, k, r) && q < a <= NextStart(k, r)
    ensures Rival(p, s, q, a, k)
  {
    NotRewound(p, s, q, k, r, a);
  }

  /** No byte is compared for a start that is passed over, nor an earlier one for the next start. */
  lemma NotCompared(p: Str, s: Str, q: int, k: int, r: int, a: int, b: int)
    requires Mismatch(p, s, q, k, r) && q < a <= NextStart(k, r) && (a == NextStart(k, r) ==> b < k)
    ensures !Compared(p, s, a, b)
  {
    if Compared(p, s, a, b) {
      if b < k {
        NotRewound(p, s, q, k, r, a);
        LiveBefore(p, s, q, k, b);
        assert Rival(p, s, q, a, b);
      } else {
        if b > k {
          LiveBefore(p, s, a, b, k);
        }
        PassedOver(p, s, q, k, r, a);
        StillRival(p, s, q, k, r, a);
        var n := NearestRival(p, s, q, a, k, a);
        if n > q {
          PassedOver(p, s, q, k, r, n);
        }
      }
    }
  }

  lemma DoneAfterMismatch(p: Str, s: Str, q: int, k: int, r: int)
    requires Mismatch(p, s, q, k, r)
    ensures Done(p, s, NextStart(k, r), if r == -1 then k + 1 else k) == Done(p, s, q, k) + {(q, k)}
    ensures (q, k) !in Done(p, s, q, k)
  {
    forall b | k < b
      ensures !Compared(p, s, q, b)
    {
      if Compared(p, s, q, b) {
        LiveBefore(p, s, q, b, k);
      }
    }
    forall a, b {:trigger Compared(p, s, a, b)} | q < a <= NextStart(k, r) && (a == NextStart(k, r) ==> b < k)
      ensures !Compared(p, s, a, b)
    {
      NotCompared(p, s, q, k, r, a, b);
    }
    hide Compared, IsNextVal;
  }

  /** Rivals of the next candidate, by where they start. */
  lemma RivalMismatches(p: Str, s: Str, q: int, k: int, r: int, x: int)
    requires Mismatch(p, s, q, k, r) && x < NextStart(k, r) && Live(p, s, x, k) && !Rewound(p, s, x, NextStart(k, r))
    ensures s[k] != p[k - x] && (x >= q ==> p[k - x] == p[k - q])
  {
    if x < q {
      assert Rival(p, s, x, q, k);
    } else if x > q {
      PassedOver(p, s, q, k, r, x);
    }
  }

  lemma FallbackCompares(p: Str, s: Str, q: int, k: int, r: int)
    requires Mismatch(p, s, q, k, r) && r >= 0
    ensures Compared(p, s, k - r, k)
  {
    var a := k - r;
    var v := k - q;
    assert s[a..k] == s[q..k][a - q..] == p[..v][a - q..] == p[v - r..v] == p[..r];
    StillRival(p, s, q, k, r, a);
    forall x | Rival(p, s, x, a, k)
      ensures s[k] != p[k - x] && (x >= q ==> p[k - x] == p[k - q])
    {
      RivalMismatches(p, s, q, k, r, x);
    }
    forall x | Nearest(p, s, x, a, k)
      ensures p[k - x] != p[r]
    {
      assert x >= q;
    }
  }

  lemma AdvanceCompares(p: Str, s: Str, q: int, k: int)
    requires Mismatch(p, s, q, k, -1) && k + 1 < |s|
    ensures Compared(p, s, k + 1, k + 1)
  {
    var next := k + 1;
    forall x
      ensures !Rival(p, s, x, next, next)
    {
      if Rival(p, s, x, next, next) {
        LiveBefore(p, s, x, next, k);
        RivalMismatches(p, s, q, k, -1, x);
      }
    }
  }

  /** After a match that does not end the text the loop starts afresh one byte further. */
  lemma HitStep(p: Str, s: Str, q: int)
    requires 0 < |p| && OccursAt(p, s, q) && q + |p| < |s|
    ensures Compared(p, s, q + 1, q + 1)
    ensures Done(p, s, q + 1, q + 1) == Done(p, s, q, q + |p|)
  {
    var next := q + 1;
    forall r | Rival(p, s, r, next, next)
      ensures Rewound(p, s, r, next)
    {
    }
    assert Compared(p, s, next, next);
    forall b | q + |p| <= b
      ensures !Compared(p, s, q, b)
    {
    }
    hide Compared;
  }

  /** At the end of the text nothing is left to compare: the current start stays alive to the end. */
  lemma AllDone(p: Str, s: Str, q: int)
    requires 0 <= q <= |s| && |s| - q <= |p| && s[q..] == p[..|s| - q]
    ensures Done(p, s, q, |s|) == ComparedPairs(p, s)
  {
    forall a, b {:trigger Compared(p, s, a, b)} | q < a <= b < |s|
      ensures !Compared(p, s, a, b)
    {
      assert s[q..b] == s[q..][..b - q] && p[..b - q] == p[..|s| - q][..b - q];
      assert Live(p, s, q, b) && !Rewound(p, s, q, a);
      assert Rival(p, s, q, a, b);
      assert s[b] == s[q..][b - q];
    }
    hide Compared;
  }

  // ---- the loop of multikmp.c ----

  lemma OccursHere(p: Str, s: Str, k: int)
    requires Scanning(p, s, k, |p|)
    ensures OccursAt(p, s, k - |p|)
  {
  }

  /** A pattern that occurs at the end is a suffix; starts passed over do not occur. */
  lemma EndPassed(p: Str, s: Str, k: int, v: int, r: int)
    requires Scanning(p, s, k, v) && k < |s| && v < |p| && s[k] != p[v] && IsNextVal(p, v, r)
    requires k - v > |s| - |p| ==> !IsSuffix(p, s)
    ensures k - r > |s| - |p| ==> !IsSuffix(p, s)
  {
    if IsSuffix(p, s) && k - v <= |s| - |p| < k - r {
      assert OccursAt(p, s, |s| - |p|);
      if |s| - |p| <= k {
        NoMatchBetween(p, s, k, v, r, |s| - |p|);
      }
    }
  }

  lemma EndReached(p: Str, s: Str, v: int)
    requires Scanning(p, s, |s|, v)
    ensures v == |p| ==> IsSuffix(p, s)
  {
  }

  /** The state of the loop: the matches found and the comparisons made so far. Every byte read and every
      byte rewound over has been compared; no pattern that ends the text has been passed over. */
  ghost predicate Looping(p: Str, s: Str, k: int, v: int, count: nat, cmps: nat) {
    && 0 < |p| && Scanning(p, s, k, v)
    && count == CountBefore(p, s, k - v)
    && cmps == |Done(p, s, k - v, k)|
    && (k < |s| && v < |p| ==> Compared(p, s, k - v, k))
    && (k - v > |s| - |p| ==> !IsSuffix(p, s))
    && Costs(|p|, k, v, count, cmps)
  }

  ghost predicate Costs(l2: nat, k: int, v: int, count: nat, cmps: nat) {
    k + count * (l2 - 1) <= cmps <= 2 * k - v + count * (l2 - 2)
  }

  lemma CostOfHit(l2: nat, k: int, count: nat, cmps: nat)
    requires Costs(l2, k, l2, count, cmps)
    ensures Costs(l2, k - l2 + 1, 0, count + 1, cmps)
  {
    assert (count + 1) * (l2 - 1) == count * (l2 - 1) + l2 - 1;
    assert (count + 1) * (l2 - 2) == count * (l2 - 2) + l2 - 2;
  }

  lemma CostOfComparison(l2: nat, k: int, v: int, count: nat, cmps: nat, r: int)
    requires Costs(l2, k, v, count, cmps)
    ensures Costs(l2, k + 1, v + 1, count, cmps + 1)
    ensures -1 <= r < v ==> Costs(l2, k, r, count, cmps + 1)
    ensures v >= 0 ==> Costs(l2, k + 1, 0, count, cmps + 1)
  {
  }

  lemma LoopStarts(p: Str, s: Str)
    requires 0 < |p|
    ensures Looping(p, s, 0, 0, 0, 0)
  {
    NothingDone(p, s);
    hide Done, Compared;
    assert Costs(|p|, 0, 0, 0, 0);
  }

  lemma LoopHit(p: Str, s: Str, k: int, count: nat, cmps: nat)
    requires Looping(p, s, k, |p|, count, cmps) && k < |s|
    ensures Looping(p, s, k - |p| + 1, 0, count + 1, cmps)
  {
    FullMatchCounts(p, s, k);
    OccursHere(p, s, k);
    HitStep(p, s, k - |p|);
    CostOfHit(|p|, k, count, cmps);
    hide Done, Compared, OccursAt, IsSuffix, Costs;
  }

  lemma LoopMatch(p: Str, s: Str, k: int, v: int, count: nat, cmps: nat)
    requires Looping(p, s, k, v, count, cmps) && k < |s| && v < |p| && s[k] == p[v]
    ensures Looping(p, s, k + 1, v + 1, count, cmps + 1)
  {
    hide OccursAt, Compared, Done, IsSuffix, CountBefore, Costs;
    CostOfComparison(|p|, k, v, count, cmps, 0);
    PartialMatchExtends(p, s, k, v);
    MatchStep(p, s, k - v, k);
  }

  lemma LoopMismatch(p: Str, s: Str, k: int, v: int, count: nat, cmps: nat, r: int)
    requires Looping(p, s, k, v, count, cmps) && k < |s| && v < |p| && s[k] != p[v] && IsNextVal(p, v, r)
    ensures r == -1 || 0 <= r < v
    ensures if r == -1 then Looping(p, s, k + 1, 0, count, cmps + 1) else Looping(p, s, k, r, count, cmps + 1)
  {
    hide OccursAt, Compared, Done, IsSuffix, CountBefore, IsNextVal, Costs;
    CostOfComparison(|p|, k, v, count, cmps, r);
    MismatchSkips(p, s, k, v, r);
    EndPassed(p, s, k, v, r);
    DoneAfterMismatch(p, s, k - v, k, r);
    if r >= 0 {
      FallbackCompares(p, s, k - v, k, r);
    } else if k + 1 < |s| {
      AdvanceCompares(p, s, k - v, k);
    }
  }

  lemma LoopFacts(p: Str, s: Str, k: int, v: int, count: nat, cmps: nat)
    requires Looping(p, s, k, v, count, cmps)
    ensures 0 <= v <= |p| && Scanning(p, s, k, v) && count == CountBefore(p, s, k - v)
    ensures k - v > |s| - |p| ==> !IsSuffix(p, s)
    ensures cmps == |Done(p, s, k - v, k)| && Costs(|p|, k, v, count, cmps)
  {
  }

  lemma LoopEnds(p: Str, s: Str, v: int, count: nat, cmps: nat)
    requires Looping(p, s, |s|, v, count, cmps)
    ensures 0 <= v <= |p| && count == Occurrences(p, s) - if v == |p| then 1 else 0
    ensures v == |p| <==> IsSuffix(p, s)
  {
    hide Looping, Occurrences, OccursAt, IsSuffix, CountBefore, Scanning, Done, Costs;
    LoopFacts(p, s, |s|, v, count, cmps);
    EndReached(p, s, v);
    if v == |p| {
      FullMatchCounts(p, s, |s|);
      CountIsOccurrences(p, s, |s| - v + 1);
    } else {
      CountIsOccurrences(p, s, |s| - v);
    }
  }

  lemma LoopCost(p: Str, s: Str, v: int, count: nat, cmps: nat)
    requires Looping(p, s, |s|, v, count, cmps)
    ensures cmps == |ComparedPairs(p, s)|
    ensures |s| + count * (|p| - 1) <= cmps <= 2 * |s| + count * (|p| - 2)
  {
    hide Looping, Occurrences, OccursAt, IsSuffix, CountBefore, Done, Costs, ComparedPairs;
    LoopFacts(p, s, |s|, v, count, cmps);
    EndReached(p, s, v);
    AllDone(p, s, |s| - v);
    CostAtEnd(|p|, |s|, v, count, cmps);
  }

  lemma CostAtEnd(l2: nat, k: int, v: int, count: nat, cmps: nat)
    requires Costs(l2, k, v, count, cmps) && v >= 0
    ensures k + count * (l2 - 1) <= cmps <= 2 * k + count * (l2 - 2)
  {
  }

  /** The matching loop of multikmp.c. `cmps` is what the loop adds to `cmpnum` and `hits` the matches
      counted inside the loop, all but one that ends the text. */
  method KmpCount(p: Str, s: Str, next: array<int>) returns (count: nat, cmps: nat, ghost hits: nat)
    requires 0 < |p| && IsNextTable(p, next[..])
    ensures count == Occurrences(p, s) && hits == count - if IsSuffix(p, s) then 1 else 0
    ensures cmps == |ComparedPairs(p, s)|
    ensures |s| + hits * (|p| - 1) <= cmps <= 2 * |s| + hits * (|p| - 2)
  {
    hide Looping, Occurrences, IsNextVal, ComparedPairs, IsSuffix;
    var l1, l2 := |s|, |p|;
    var k, v := 0, 0;
    count, cmps := 0, 0;
    LoopStarts(p, s);
    while k < l1
      invariant 0 <= v <= l2 && v <= k <= l1 && Looping(p, s, k, v, count, cmps)
      decreases l1 - (k - v), l1 - k
    {
      cmps := cmps + 1;
      if v == l2 {
        LoopHit(p, s, k, count, cmps - 1);
        count := count + 1;
        k := k - (l2 - 1);
        v := 0;
      }
      if s[k] == p[v] {
        LoopMatch(p, s, k, v, count, cmps - 1);
        k, v := k + 1, v + 1;
      } else {
        assert next[v] == next[..][v];
        LoopMismatch(p, s, k, v, count, cmps - 1, next[v]);
        v := next[v];
        if v == -1 {
          k, v := k + 1, v + 1;
        }
      }
    }
    LoopEnds(p, s, v, count, cmps);
    LoopCost(p, s, v, count, cmps);
    hits := count;
    if v == l2 {
      count := count + 1;
    }
  }

  // ---- the loop of strstr.c ----

  /** From start `q` the bytes before `k` agree; the pattern may be used up. */
  ghost predicate Reaches(p: Str, s: Str, q: int, k: int) {
    0 <= q <= k <= |s| && k - q <= |p| && s[q..k] == p[..k - q]
  }

  /** Byte `k` is compared for start `q`, with the next byte or the terminator of the pattern: the bytes
      before it agree, and no earlier start has reached the end of the text. */
  ghost predicate Tested(p: Str, s: Str, q: int, k: int) {
    k < |s| && Reaches(p, s, q, k) && forall r :: 0 <= r < q ==> !Reaches(p, s, r, |s|)
  }

  ghost function TestedPairs(p: Str, s: Str): set<(int, int)> {
    set q, k | 0 <= q <= k < |s| && Tested(p, s, q, k) :: (q, k)
  }

  ghost function TestsDone(p: Str, s: Str, q: int, k: int): set<(int, int)> {
    set a, b | 0 <= a <= b < |s| && Tested(p, s, a, b) && (a < q || (a == q && b < k)) :: (a, b)
  }

  lemma ReachesBefore(p: Str, s: Str, q: int, k: int, j: int)
    requires Reaches(p, s, q, k) && q <= j < k
    ensures Reaches(p, s, q, j) && j - q < |p| && s[j] == p[j - q]
  {
    assert s[q..j] == s[q..k][..j - q] && p[..j - q] == p[..k - q][..j - q];
    assert s[j] == s[q..k][j - q] == p[..k - q][j - q];
  }

  /** The state of the loop. */
  ghost predicate Trying(p: Str, s: Str, k: int, v: int, count: nat, cmps: nat) {
    && 0 < |p| && Scanning(p, s, k, v)
    && count == CountBefore(p, s, k - v)
    && cmps == |TestsDone(p, s, k - v, k)|
    && (forall r :: 0 <= r < k - v ==> !Reaches(p, s, r, |s|))
    && k <= cmps <= TryCost(k - v, |p|) + v
  }

  lemma TryStarts(p: Str, s: Str)
    requires 0 < |p|
    ensures Trying(p, s, 0, 0, 0, 0)
  {
    assert TestsDone(p, s, 0, 0) == {};
    OneMoreTry(0, |p|);
  }

  /** One byte is tested. */
  lemma TestStep(p: Str, s: Str, k: int, v: int, count: nat, cmps: nat)
    requires Trying(p, s, k, v, count, cmps) && k < |s|
    ensures |TestsDone(p, s, k - v, k + 1)| == cmps + 1
  {
    hide TryCost, CountBefore, TestsDone;
    assert Tested(p, s, k - v, k);
    hide Tested, Trying, Reaches, Scanning;
    OneMoreTest(p, s, k - v, k);
  }

  lemma OneMoreTest(p: Str, s: Str, q: int, k: int)
    requires Tested(p, s, q, k) && 0 <= q <= k < |s|
    ensures TestsDone(p, s, q, k + 1) == TestsDone(p, s, q, k) + {(q, k)} && (q, k) !in TestsDone(p, s, q, k)
  {
    hide Tested;
  }

  lemma TryMatch(p: Str, s: Str, k: int, v: int, count: nat, cmps: nat)
    requires Trying(p, s, k, v, count, cmps) && k < |s| && v < |p| && s[k] == p[v]
    ensures Trying(p, s, k + 1, v + 1, count, cmps + 1)
  {
    hide OccursAt, CountBefore, TestsDone, Reaches, TryCost;
    TestStep(p, s, k, v, count, cmps);
    PartialMatchExtends(p, s, k, v);
  }

  /** The next start is tried. */
  lemma TryNext(p: Str, s: Str, k: int, v: int, count: nat, cmps: nat)
    requires Trying(p, s, k, v, count, cmps) && k < |s| && (v < |p| ==> s[k] != p[v])
    ensures Trying(p, s, k - v + 1, 0, count + if v == |p| then 1 else 0, cmps + 1)
  {
    hide OccursAt, CountBefore, TestsDone, Reaches, TryCost, Tested;
    TestStep(p, s, k, v, count, cmps);
    OneMoreTry(k - v, |p|);
    StartIsOver(p, s, k, v);
    if v == |p| {
      FullMatchCounts(p, s, k);
    } else {
      MismatchedByte(p, s, k, v);
    }
    NextCount(p, s, k - v);
  }

  lemma NextCount(p: Str, s: Str, q: int)
    ensures q >= 0 && !OccursAt(p, s, q) ==> CountBefore(p, s, q + 1) == CountBefore(p, s, q)
  {
  }

  lemma StartIsOver(p: Str, s: Str, k: int, v: int)
    requires Scanning(p, s, k, v) && k < |s| && (v < |p| ==> s[k] != p[v])
    ensures !Reaches(p, s, k - v, |s|)
    ensures TestsDone(p, s, k - v + 1, k - v + 1) == TestsDone(p, s, k - v, k + 1)
  {
    var q := k - v;
    forall b | k < b <= |s|
      ensures !Reaches(p, s, q, b)
    {
      if Reaches(p, s, q, b) {
        ReachesBefore(p, s, q, b, k);
      }
    }
    hide Reaches;
  }

  lemma TryEnds(p: Str, s: Str, v: int, count: nat, cmps: nat)
    requires Trying(p, s, |s|, v, count, cmps)
    ensures 0 <= v <= |p| && count == Occurrences(p, s) - if v == |p| then 1 else 0
  {
    hide Trying, Occurrences, OccursAt, CountBefore, Scanning, TestsDone, TryCost;
    TryFacts(p, s, |s|, v, count, cmps);
    if v == |p| {
      FullMatchCounts(p, s, |s|);
      CountIsOccurrences(p, s, |s| - v + 1);
    } else {
      CountIsOccurrences(p, s, |s| - v);
    }
  }

  lemma TryFacts(p: Str, s: Str, k: int, v: int, count: nat, cmps: nat)
    requires Trying(p, s, k, v, count, cmps)
    ensures 0 <= v <= |p| && v <= k <= |s| && Scanning(p, s, k, v) && count == CountBefore(p, s, k - v)
  {
  }

  /** A start that reaches the end of the text is the last one tried. */
  lemma LastStart(p: Str, s: Str, q: int)
    requires Reaches(p, s, q, |s|)
    ensures TestsDone(p, s, q, |s|) == TestedPairs(p, s)
  {
    hide Reaches;
    assert forall a, b {:trigger Tested(p, s, a, b)} :: q < a ==> q < 0 || !Tested(p, s, a, b);
    StartsInside(p, s, q);
    hide Tested;
  }

  lemma StartsInside(p: Str, s: Str, q: int)
    requires Reaches(p, s, q, |s|)
    ensures q >= 0
  {
  }

  lemma AllTested(p: Str, s: Str, v: int, count: nat, cmps: nat)
    requires Trying(p, s, |s|, v, count, cmps)
    ensures cmps == |TestedPairs(p, s)| && |s| <= cmps <= |s| * (|p| + 1)
  {
    hide Tested, TestsDone, TestedPairs, TryCost, CountBefore;
    LastStart(p, s, |s| - v);
    LastTry(|s|, v, |p|);
  }

  lemma MismatchedByte(p: Str, s: Str, k: int, v: int)
    requires Scanning(p, s, k, v) && k < |s| && v < |p| && s[k] != p[v]
    ensures !OccursAt(p, s, k - v)
  {
  }

  lemma EndRead(s: Str, i: nat)
    requires NulFree(s) && i <= |s|
    ensures At(s, i) == 0 <==> i == |s|
  {
  }

  /** What the loop learns from the two bytes it compares. */
  lemma BytesRead(p: Str, pp: nat, s: Str, sp: nat)
    requires NulFree(p) && NulFree(s) && pp <= |p| && sp <= |s| && At(s, sp) != 0
    ensures sp < |s| && (At(p, pp) == 0 <==> pp == |p|)
    ensures At(p, pp) == At(s, sp) <==> pp < |p| && p[pp] == s[sp]
  {
  }

  /** What trying `n` candidate positions costs at most. */
  ghost function TryCost(n: nat, length: nat): nat {
    n * (length + 1)
  }

  lemma OneMoreTry(n: nat, length: nat)
    ensures TryCost(0, length) == 0 && TryCost(n + 1, length) == TryCost(n, length) + length + 1
  {
  }

  lemma LastTry(n: nat, v: nat, length: nat)
    requires v <= n
    ensures TryCost(n - v, length) + v <= TryCost(n, length) == n * (length + 1)
  {
    assert n * (length + 1) == (n - v) * (length + 1) + v * (length + 1);
    assert v * (length + 1) == v * length + v;
  }

  /** The counting loop of strstr.c, over the text and the pattern up to their terminators. `cmps` is
      what the loop adds to `cmpnum`. */
  method BruteForceCount(p: Str, s: Str) returns (count: nat, cmps: nat)
    requires 0 < |p| && NulFree(p) && NulFree(s)
    ensures count == Occurrences(p, s)
    ensures cmps == |TestedPairs(p, s)| && |s| <= cmps <= |s| * (|p| + 1)
  {
    hide Trying, Occurrences, At, NulFree, TestedPairs;
    count, cmps := 0, 0;
    var sp, pp := 0, 0;
    TryStarts(p, s);
    while At(s, sp) != 0
      invariant 0 <= pp <= |p| && pp <= sp <= |s| && Trying(p, s, sp, pp, count, cmps)
      decreases |s| - (sp - pp), |s| - sp
    {
      ghost var before := count;
      cmps := cmps + 1;
      BytesRead(p, pp, s, sp);
      if At(p, pp) == 0 {
        count := count + 1;
      }
      if At(p, pp) == At(s, sp) {
        TryMatch(p, s, sp, pp, before, cmps - 1);
        pp, sp := pp + 1, sp + 1;
      } else {
        TryNext(p, s, sp, pp, before, cmps - 1);
        sp := sp - pp + 1;
        pp := 0;
      }
    }
    EndRead(p, pp);
    EndRead(s, sp);
    TryEnds(p, s, pp, count, cmps);
    AllTested(p, s, pp, count, cmps);
    if At(p, pp) == 0 {
      count := count + 1;
    }
  }
}
