/** The two other programs of lab3, over their whole pattern lists, and all three on the same input. */
module Matchers {
  import opened Strings
  import Kmp
  import Pipeline
  import Scan

  ghost predicate Patterns(patterns: seq<Str>) {
    forall i :: 0 <= i < |patterns| ==> patterns[i] != [] && NulFree(patterns[i])
  }

  /** Every pattern has its number of occurrences, overlaps included. */
  ghost predicate CountsAll(counts: seq<nat>, patterns: seq<Str>, text: Str) {
    |counts| == |patterns| && forall i :: 0 <= i < |patterns| ==> counts[i] == Occurrences(patterns[i], text)
  }

  /** The matches of KMP that make it rewind: all but one that ends the text. */
  ghost function Hits(p: Str, text: Str): int {
    Occurrences(p, text) - if IsSuffix(p, text) then 1 else 0
  }

  /** The comparisons of KMP, summed over the patterns. */
  ghost function KmpSum(patterns: seq<Str>, text: Str): nat {
    if patterns == [] then 0
    else
      var last := |patterns| - 1;
      KmpSum(patterns[..last], text) + |Scan.ComparedPairs(patterns[last], text)|
  }

  /** At least every byte of the text and every byte rewound over is compared. */
  ghost function KmpLeast(patterns: seq<Str>, text: Str): int {
    if patterns == [] then 0
    else
      var last := |patterns| - 1;
      KmpLeast(patterns[..last], text) + |text| + Hits(patterns[last], text) * (|patterns[last]| - 1)
  }

  /** At most twice every byte, and the bytes rewound over. */
  ghost function KmpMost(patterns: seq<Str>, text: Str): int {
    if patterns == [] then 0
    else
      var last := |patterns| - 1;
      KmpMost(patterns[..last], text) + 2 * |text| + Hits(patterns[last], text) * (|patterns[last]| - 2)
  }

  /** The comparisons of brute force, summed over the patterns. */
  ghost function BruteSum(patterns: seq<Str>, text: Str): nat {
    if patterns == [] then 0
    else
      var last := |patterns| - 1;
      BruteSum(patterns[..last], text) + |Scan.TestedPairs(patterns[last], text)|
  }

  /** From every byte of the text at most the whole pattern and its terminator. */
  ghost function BruteMost(patterns: seq<Str>, n: nat): nat {
    if patterns == [] then 0
    else
      var last := |patterns| - 1;
      BruteMost(patterns[..last], n) + n * (|patterns[last]| + 1)
  }

  /** multikmp.c: a table for every pattern, then one pass over the text for each. */
  method MultiKmp(patterns: seq<Str>, text: Str) returns (counts: seq<nat>, cmpnum: nat)
    requires Patterns(patterns)
    ensures CountsAll(counts, patterns, text)
    ensures cmpnum == KmpSum(patterns, text)
    ensures KmpLeast(patterns, text) <= cmpnum <= KmpMost(patterns, text)
  {
    hide Occurrences, Kmp.IsNextTable, IsSuffix, Scan.ComparedPairs;
    counts, cmpnum := [], 0;
    for i := 0 to |patterns|
      invariant |counts| == i && forall j :: 0 <= j < i ==> counts[j] == Occurrences(patterns[j], text)
      invariant cmpnum == KmpSum(patterns[..i], text)
      invariant KmpLeast(patterns[..i], text) <= cmpnum <= KmpMost(patterns[..i], text)
    {
      var next := new int[|patterns[i]| + 1];
      Kmp.GetNext(patterns[i], next);
      var count, cmps, hits := Scan.KmpCount(patterns[i], text, next);
      assert hits == Hits(patterns[i], text);
      OneMoreKmp(patterns, i, text);
      counts, cmpnum := counts + [count], cmpnum + cmps;
    }
    assert patterns[..|patterns|] == patterns;
  }

  lemma OneMoreKmp(patterns: seq<Str>, i: nat, text: Str)
    requires i < |patterns|
    ensures KmpSum(patterns[..i + 1], text) == KmpSum(patterns[..i], text) + |Scan.ComparedPairs(patterns[i], text)|
    ensures KmpLeast(patterns[..i + 1], text) ==
            KmpLeast(patterns[..i], text) + |text| + Hits(patterns[i], text) * (|patterns[i]| - 1)
    ensures KmpMost(patterns[..i + 1], text) ==
            KmpMost(patterns[..i], text) + 2 * |text| + Hits(patterns[i], text) * (|patterns[i]| - 2)
  {
    hide Hits, Scan.ComparedPairs;
    assert patterns[..i + 1][..i] == patterns[..i];
  }

  /** strstr.c: one brute-force pass for each pattern. */
  method MultiStrstr(patterns: seq<Str>, text: Str) returns (counts: seq<nat>, cmpnum: nat)
    requires Patterns(patterns) && NulFree(text)
    ensures CountsAll(counts, patterns, text)
    ensures cmpnum == BruteSum(patterns, text)
    ensures |patterns| * |text| <= cmpnum <= BruteMost(patterns, |text|)
  {
    hide Occurrences, Scan.TestedPairs;
    counts, cmpnum := [], 0;
    for i := 0 to |patterns|
      invariant |counts| == i && forall j :: 0 <= j < i ==> counts[j] == Occurrences(patterns[j], text)
      invariant cmpnum == BruteSum(patterns[..i], text)
      invariant i * |text| <= cmpnum <= BruteMost(patterns[..i], |text|)
    {
      var count, cmps := Scan.BruteForceCount(patterns[i], text);
      OneMoreBrute(patterns, i, text);
      OneMoreText(i, |text|);
      counts, cmpnum := counts + [count], cmpnum + cmps;
    }
    assert patterns[..|patterns|] == patterns;
  }

  lemma OneMoreBrute(patterns: seq<Str>, i: nat, text: Str)
    requires i < |patterns|
    ensures BruteSum(patterns[..i + 1], text) == BruteSum(patterns[..i], text) + |Scan.TestedPairs(patterns[i], text)|
    ensures BruteMost(patterns[..i + 1], |text|) == BruteMost(patterns[..i], |text|) + |text| * (|patterns[i]| + 1)
  {
    hide Scan.TestedPairs;
    assert patterns[..i + 1][..i] == patterns[..i];
  }

  lemma OneMoreText(i: nat, n: nat)
    ensures (i + 1) * n == i * n + n
  {
  }

  /** The three programs on the same lines and the same text agree: KMP and brute force give every
      pattern the same count, and the automaton reports a pattern exactly when that count is positive,
      with that count. */
  method AllPrograms(patterns: seq<Str>, text: Str, hash: Str -> nat, length: nat)
    returns (kmp: seq<nat>, brute: seq<nat>, report: seq<(Str, nat)>, kmpCost: nat, bruteCost: nat, acCost: nat)
    requires Patterns(patterns) && NulFree(text) && 0 < length
    ensures kmp == brute && CountsAll(kmp, patterns, text)
    ensures forall i, n: nat :: 0 <= i < |patterns| ==> ((patterns[i], n) in report <==> n == kmp[i] > 0)
    ensures |text| <= acCost <= 2 * |text|
    ensures kmpCost == KmpSum(patterns, text) && bruteCost == BruteSum(patterns, text) >= |patterns| * |text|
  {
    hide Occurrences, KmpSum, KmpLeast, KmpMost, BruteSum, BruteMost;
    kmp, kmpCost := MultiKmp(patterns, text);
    brute, bruteCost := MultiStrstr(patterns, text);
    var count;
    ghost var known;
    report, count, acCost, known := Pipeline.CountPatterns(patterns, text, hash, length);
  }
}
