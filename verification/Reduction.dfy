/** The stride-doubling loop of ac_auto.c that folds all buckets into bucket 0. After a round with
    stride `s` only the buckets at multiples of `s` are alive; `home` tells which of them holds an
    entry. */
module Reduction {
  import opened Chains
  import opened Pointers
  import opened Merging

  /** The `i`-th bucket that is alive at stride `s`. */
  function Slot(i: nat, s: nat): nat {
    i * s
  }

  lemma SlotOrder(i: nat, j: nat, s: nat)
    requires i < j
    ensures Slot(i, s) + s <= Slot(j, s)
  {
    var d: nat := j - i - 1;
    assert (i + 1 + d) * s == i * s + s + d * s;
    assert Slot(d, s) == d * s;
  }

  lemma SlotDouble(i: nat, s: nat)
    ensures Slot(i, 2 * s) == i * 2 * s == Slot(2 * i, s)
    ensures i * 2 * s + s == Slot(2 * i + 1, s)
  {
  }

  /** `g` buckets are alive in a table of length `n`. */
  ghost predicate Alive(g: nat, s: nat, n: nat) {
    0 < g && 0 < s && Slot(g - 1, s) < n <= Slot(g, s)
  }

  lemma AliveSlots(g: nat, s: nat, n: nat, j: nat)
    requires Alive(g, s, n)
    ensures Slot(j, s) < n <==> j < g
  {
    hide Slot;
    if j < g - 1 {
      SlotOrder(j, g - 1, s);
    } else if g < j {
      SlotOrder(g, j, s);
    }
  }

  lemma AliveHalves(g: nat, s: nat, n: nat)
    requires Alive(g, s, n)
    ensures Alive((g + 1) / 2, 2 * s, n)
  {
    var h := (g + 1) / 2;
    SlotDouble(h, s);
    SlotDouble(h - 1, s);
    if g < 2 * h {
      SlotOrder(g, 2 * h, s);
    } else {
      SlotOrder(2 * h - 2, g - 1, s);
    }
  }

  ghost predicate AtHome(c: seq<nat>, home: seq<nat>, d: nat, i: nat)
    requires d > 0
  {
    forall id: nat :: id in c <==> id < |home| && home[id] / d == i
  }

  lemma AtHomeMerged(a: seq<nat>, b: seq<nat>, c: seq<nat>, home: seq<nat>, i: nat)
    requires AtHome(a, home, 1, 2 * i) && AtHome(b, home, 1, 2 * i + 1)
    requires multiset(c) == multiset(a) + multiset(b)
    ensures AtHome(c, home, 2, i)
  {
    forall id: nat
      ensures id in c <==> id in a || id in b
    {
      assert id in c <==> id in multiset(c);
      assert id in a <==> id in multiset(a);
      assert id in b <==> id in multiset(b);
    }
  }

  /** Bucket head `head` carries exactly the entries whose home, scaled down by `d`, is `i`. */
  ghost predicate Holds(cells: seq<Entry>, head: Ptr, c: seq<nat>, home: seq<nat>, d: nat, i: nat)
    requires d > 0
  {
    && IsChain(cells, head, c)
    && Ordered(cells, c)
    && |home| == |cells|
    && AtHome(c, home, d, i)
  }

  /** The first `i` pairs of a round have been merged, the rest are as the last round left them. */
  ghost predicate Round(cells: seq<Entry>, heads: seq<Ptr>, home: seq<nat>, g: nat, s: nat,
                        live: seq<seq<nat>>, merged: seq<seq<nat>>) {
    && Alive(g, s, |heads|) && |live| == g && |merged| <= (g + 1) / 2
    && (forall id :: 0 <= id < |home| ==> home[id] < g)
    && (forall k :: 0 <= k < |merged| ==>
          Slot(2 * k, s) < |heads| && Holds(cells, heads[Slot(2 * k, s)], merged[k], home, 2, k))
    && (forall j :: 2 * |merged| <= j < g ==>
          Slot(j, s) < |heads| && Holds(cells, heads[Slot(j, s)], live[j], home, 1, j))
  }

  lemma HoldsApart(cells: seq<Entry>, p: Ptr, c: seq<nat>, q: Ptr, d: seq<nat>, home: seq<nat>, x: nat, i: nat, j: nat)
    requires x in {1, 2} && Holds(cells, p, c, home, x, i) && Holds(cells, q, d, home, 1, j)
    requires x == 1 ==> i != j
    requires x == 2 ==> i != j / 2
    ensures Disjoint(c, d)
  {
    hide IsChain, Ordered;
    forall k, l | 0 <= k < |c| && 0 <= l < |d|
      ensures c[k] != d[l]
    {
      assert c[k] in c && d[l] in d;
    }
  }

  /** A bucket outside the merged pair is untouched. */
  lemma HoldsOutside(before: seq<Entry>, after: seq<Entry>, a: seq<nat>, b: seq<nat>, p: Ptr, c: seq<nat>,
                     home: seq<nat>, d: nat, i: nat)
    requires d > 0 && Holds(before, p, c, home, d, i) && Rewired(before, after, a, b) && |after| == |before|
    requires Disjoint(c, a) && Disjoint(c, b)
    ensures Holds(after, p, c, home, d, i)
  {
  }

  /** The merged pair: everything that was at home in either bucket. */
  lemma HoldsMerged(before: seq<Entry>, after: seq<Entry>, p: Ptr, a: seq<nat>, q: Ptr, b: seq<nat>, r: Ptr,
                    c: seq<nat>, home: seq<nat>, i: nat)
    requires Holds(before, p, a, home, 1, 2 * i) && Holds(before, q, b, home, 1, 2 * i + 1)
    requires IsChain(after, r, c) && Ordered(after, c) && |after| == |before|
    requires multiset(c) == multiset(a) + multiset(b)
    ensures Holds(after, r, c, home, 2, i)
  {
    hide IsChain, Ordered, AtHome;
    AtHomeMerged(a, b, c, home, i);
  }

  /** The bucket at pair `i` and its partner, and where the round stores the result. */
  lemma RoundSlots(g: nat, s: nat, n: nat, i: nat)
    requires Alive(g, s, n) && i < (g + 1) / 2
    ensures Slot(2 * i, s) == i * 2 * s < n
    ensures i * 2 * s + s == Slot(2 * i + 1, s)
    ensures i * 2 * s + s < n <==> 2 * i + 1 < g
  {
    SlotDouble(i, s);
    AliveSlots(g, s, n, 2 * i);
    AliveSlots(g, s, n, 2 * i + 1);
  }

  /** Slots of different indices are different buckets. */
  lemma SlotsApart(i: nat, j: nat, s: nat)
    requires i != j && s > 0
    ensures Slot(i, s) != Slot(j, s)
  {
  }

  /** The two buckets of the next pair are alive and apart; the partner may be missing. */
  lemma PairToMerge(cells: seq<Entry>, heads: seq<Ptr>, home: seq<nat>, g: nat, s: nat,
                    live: seq<seq<nat>>, merged: seq<seq<nat>>)
    requires Round(cells, heads, home, g, s, live, merged) && |merged| < (g + 1) / 2
    ensures var i := |merged|;
            && i * 2 * s == Slot(2 * i, s) < |heads| && i * 2 * s + s == Slot(2 * i + 1, s)
            && (i * 2 * s + s < |heads| <==> 2 * i + 1 < g)
            && |live| == g && (2 * i + 1 < g ==>
                  && s > 0 && Disjoint(live[2 * i], live[2 * i + 1])
                  && IsChain(cells, heads[i * 2 * s], live[2 * i]) && Ordered(cells, live[2 * i])
                  && IsChain(cells, heads[i * 2 * s + s], live[2 * i + 1]) && Ordered(cells, live[2 * i + 1]))
  {
    hide IsChain, Ordered, Slot;
    var i := |merged|;
    RoundSlots(g, s, |heads|, i);
    if 2 * i + 1 < g {
      HoldsApart(cells, heads[Slot(2 * i, s)], live[2 * i], heads[Slot(2 * i + 1, s)], live[2 * i + 1], home, 1,
                 2 * i, 2 * i + 1);
    }
  }

  /** With one bucket left, it is bucket 0 and holds every entry. */
  lemma LastRound(cells: seq<Entry>, heads: seq<Ptr>, home: seq<nat>, s: nat, live: seq<seq<nat>>)
    requires Round(cells, heads, home, 1, s, live, [])
    ensures |heads| > 0 && |live| == 1 && IsChain(cells, heads[0], live[0]) && Ordered(cells, live[0])
    ensures forall id :: 0 <= id < |cells| ==> id in live[0]
  {
  }

  /** One merge of a round: pair number |merged| becomes one bucket and no other bucket notices. */
  lemma PairMerged(before: seq<Entry>, after: seq<Entry>, heads: seq<Ptr>, heads': seq<Ptr>, home: seq<nat>,
                   g: nat, s: nat, live: seq<seq<nat>>, merged: seq<seq<nat>>, c: seq<nat>)
    requires Round(before, heads, home, g, s, live, merged) && 2 * |merged| + 1 < g && |heads'| == |heads|
    requires Rewired(before, after, live[2 * |merged|], live[2 * |merged| + 1]) && |after| == |before|
    requires Slot(2 * |merged|, s) < |heads|
    requires IsChain(after, heads'[Slot(2 * |merged|, s)], c) && Ordered(after, c)
    requires multiset(c) == multiset(live[2 * |merged|]) + multiset(live[2 * |merged| + 1])
    requires forall x :: 0 <= x < |heads| && x != Slot(2 * |merged|, s) && x != Slot(2 * |merged| + 1, s) ==>
               heads'[x] == heads[x]
    ensures Round(after, heads', home, g, s, live, merged + [c])
  {
    hide Slot, IsChain, Ordered, Rewired, Holds;
    var i := |merged|;
    var a, b := live[2 * i], live[2 * i + 1];
    HoldsMerged(before, after, heads[Slot(2 * i, s)], a, heads[Slot(2 * i + 1, s)], b, heads'[Slot(2 * i, s)], c,
                home, i);
    forall k: nat | k < i
      ensures Holds(after, heads'[Slot(2 * k, s)], merged[k], home, 2, k)
    {
      SlotsApart(2 * k, 2 * i, s);
      SlotsApart(2 * k, 2 * i + 1, s);
      HoldsApart(before, heads[Slot(2 * k, s)], merged[k], heads[Slot(2 * i, s)], a, home, 2, k, 2 * i);
      HoldsApart(before, heads[Slot(2 * k, s)], merged[k], heads[Slot(2 * i + 1, s)], b, home, 2, k, 2 * i + 1);
      HoldsOutside(before, after, a, b, heads[Slot(2 * k, s)], merged[k], home, 2, k);
    }
    forall j: nat | 2 * i + 2 <= j < g
      ensures Slot(j, s) < |heads| && Holds(after, heads'[Slot(j, s)], live[j], home, 1, j)
    {
      SlotsApart(j, 2 * i, s);
      SlotsApart(j, 2 * i + 1, s);
      HoldsApart(before, heads[Slot(j, s)], live[j], heads[Slot(2 * i, s)], a, home, 1, j, 2 * i);
      HoldsApart(before, heads[Slot(j, s)], live[j], heads[Slot(2 * i + 1, s)], b, home, 1, j, 2 * i + 1);
      HoldsOutside(before, after, a, b, heads[Slot(j, s)], live[j], home, 1, j);
    }
  }

  /** A last bucket without a partner stays where it is. */
  lemma OddBucketStays(cells: seq<Entry>, heads: seq<Ptr>, home: seq<nat>, g: nat, s: nat,
                       live: seq<seq<nat>>, merged: seq<seq<nat>>)
    requires Round(cells, heads, home, g, s, live, merged) && 2 * |merged| + 1 == g
    ensures Round(cells, heads, home, g, s, live, merged + [live[2 * |merged|]])
  {
  }

  ghost function Halved(home: seq<nat>): seq<nat> {
    seq(|home|, id requires 0 <= id < |home| => home[id] / 2)
  }

  /** When all pairs are merged, the stride doubles and the next round can start. */
  lemma NextRound(cells: seq<Entry>, heads: seq<Ptr>, home: seq<nat>, g: nat, s: nat,
                  live: seq<seq<nat>>, merged: seq<seq<nat>>)
    requires Round(cells, heads, home, g, s, live, merged) && |merged| == (g + 1) / 2
    ensures Round(cells, heads, Halved(home), (g + 1) / 2, 2 * s, merged, [])
  {
    hide IsChain, Ordered;
    AliveHalves(g, s, |heads|);
    forall j: nat | j < |merged|
      ensures Slot(j, 2 * s) < |heads| && Holds(cells, heads[Slot(j, 2 * s)], merged[j], Halved(home), 1, j)
    {
      SlotDouble(j, s);
      assert Holds(cells, heads[Slot(2 * j, s)], merged[j], home, 2, j);
      assert AtHome(merged[j], Halved(home), 1, j);
    }
  }
}
