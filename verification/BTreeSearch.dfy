/** Why searching a B+ tree from the root finds a key exactly when some leaf stores it. */
module BTreeSearch {
  import opened Strings
  import opened Order
  import opened Pointers
  import opened BTree

  /** What Search returns: the number of keys that are at least `s`. */
  ghost predicate SearchResult(n: Node, s: Str, i: nat)
    requires n.Sized()
  {
    && i <= n.keynum
    && (forall k :: 0 <= k < i ==> Leq(s, n.key[k]))
    && (forall k :: i <= k < n.keynum ==> Less(n.key[k], s))
  }

  /** The slots before `m` with keys that are not below `s`. */
  ghost function SlotsNotBelow(n: Node, s: Str, m: nat): set<int>
    requires n.Sized() && m <= n.keynum
  {
    set j | 0 <= j < m && Leq(s, n.key[j])
  }

  /** How many keys of a node are not below `s`. */
  ghost function NotBelow(n: Node, s: Str): nat
    requires n.Sized()
  {
    |SlotsNotBelow(n, s, n.keynum)|
  }

  lemma OneMoreSlot(n: Node, s: Str, m: nat)
    requires n.Sized() && 0 < m <= n.keynum
    ensures Leq(s, n.key[m - 1]) ==>
              SlotsNotBelow(n, s, m) == SlotsNotBelow(n, s, m - 1) + {m - 1} && m - 1 !in SlotsNotBelow(n, s, m - 1)
    ensures !Leq(s, n.key[m - 1]) ==> SlotsNotBelow(n, s, m) == SlotsNotBelow(n, s, m - 1)
  {
    hide Leq;
  }

  lemma {:induction false} SlotsCounted(n: Node, s: Str, i: nat, m: nat)
    requires n.Sized() && SearchResult(n, s, i) && m <= n.keynum
    ensures |SlotsNotBelow(n, s, m)| == if m <= i then m else i
  {
    hide Leq, Less;
    if m == 0 {
      assert SlotsNotBelow(n, s, m) == {};
    } else {
      hide SlotsNotBelow;
      SlotsCounted(n, s, i, m - 1);
      OneMoreSlot(n, s, m);
      if m - 1 >= i && Leq(s, n.key[m - 1]) {
        LeqLessContradiction(s, n.key[m - 1]);
      }
    }
  }

  lemma SearchCounts(n: Node, s: Str, i: nat)
    requires n.Sized() && SearchResult(n, s, i)
    ensures NotBelow(n, s) == i
  {
    SlotsCounted(n, s, i, n.keynum);
  }

  /** The nodes of a search, from the root on: each next one is the child below the smallest key that is
      not below `s`, or below the first key if all are. */
  ghost predicate Descent(t: Arena, root: nat, s: Str, way: seq<nat>) {
    && way != [] && way[0] == root
    && (forall i :: 0 <= i < |way| ==> way[i] < |t.nodes| && t.nodes[way[i]].Sized())
    && forall i :: 0 <= i < |way| - 1 ==> GoesTo(t.nodes[way[i]], s, way[i + 1])
  }

  ghost predicate GoesTo(n: Node, s: Str, c: nat)
    requires n.Sized()
  {
    !n.leaf && var j := NotBelow(n, s); j <= M && n.ptr[if j > 0 then j - 1 else 0] == At(c)
  }

  /** One for every node and one for every key in it that is not below `s`. */
  ghost function DescentCost(t: Arena, s: Str, way: seq<nat>): nat
    requires forall i :: 0 <= i < |way| ==> way[i] < |t.nodes| && t.nodes[way[i]].Sized()
  {
    if way == [] then 0
    else
      var last := |way| - 1;
      DescentCost(t, s, way[..last]) + 1 + NotBelow(t.nodes[way[last]], s)
  }

  lemma {:induction false} DescentBound(t: Arena, s: Str, way: seq<nat>)
    requires forall i :: 0 <= i < |way| ==>
               way[i] < |t.nodes| && t.nodes[way[i]].Sized() && t.nodes[way[i]].keynum <= M
    ensures DescentCost(t, s, way) <= |way| * (M + 1)
  {
    if way != [] {
      var last := |way| - 1;
      DescentBound(t, s, way[..last]);
      NotBelowBound(t.nodes[way[last]], s);
      hide NotBelow;
    }
  }

  lemma NotBelowBound(n: Node, s: Str)
    requires n.Sized()
    ensures NotBelow(n, s) <= n.keynum
  {
    SlotsBound(n, s, n.keynum);
  }

  lemma {:induction false} SlotsBound(n: Node, s: Str, m: nat)
    requires n.Sized() && m <= n.keynum
    ensures |SlotsNotBelow(n, s, m)| <= m
  {
    if m == 0 {
      assert SlotsNotBelow(n, s, m) == {};
    } else {
      hide SlotsNotBelow;
      SlotsBound(n, s, m - 1);
      OneMoreSlot(n, s, m);
    }
  }

  /** The search has come to node `p` and paid for the nodes above it. */
  ghost predicate Visiting(t: Arena, root: nat, s: Str, way: seq<nat>, p: nat, paid: nat) {
    && Descent(t, root, s, way) && p == way[|way| - 1] && root < |t.level| && p < |t.level|
    && |way| + t.level[p] == t.level[root] + 1
    && paid + 1 + NotBelow(t.nodes[p], s) == DescentCost(t, s, way)
  }

  lemma VisitStarts(t: Arena, root: nat, s: Str)
    requires root < |t.nodes| && t.nodes[root].Sized() && root < |t.level|
    ensures Visiting(t, root, s, [root], root, 0)
  {
  }

  /** One level further down. */
  lemma VisitNext(t: Arena, root: nat, s: Str, way: seq<nat>, p: nat, paid: nat, i: nat, c: nat)
    requires Visiting(t, root, s, way, p, paid) && p < |t.nodes| && t.nodes[p].Sized() && !t.nodes[p].leaf
    requires SearchResult(t.nodes[p], s, i) && i <= M && t.nodes[p].ptr[if i > 0 then i - 1 else 0] == At(c)
    requires c < |t.nodes| && c < |t.level| && t.nodes[c].Sized() && t.level[c] + 1 == t.level[p]
    ensures Visiting(t, root, s, way + [c], c, paid + 1 + i)
  {
    SearchCounts(t.nodes[p], s, i);
    hide NotBelow, SearchResult;
    assert (way + [c])[..|way|] == way;
    assert GoesTo(t.nodes[p], s, c);
    hide GoesTo;
  }

  lemma VisitEnds(t: Arena, root: nat, s: Str, way: seq<nat>, p: nat, paid: nat, i: nat)
    requires Visiting(t, root, s, way, p, paid) && p < |t.nodes| && p < |t.level| && t.level[p] == 0
    requires t.nodes[p].Sized() && SearchResult(t.nodes[p], s, i) && i <= M
    ensures root < |t.level| && Descent(t, root, s, way) && way != [] && way[|way| - 1] == p
    ensures |way| == t.level[root] + 1 && paid + 1 + i == DescentCost(t, s, way)
  {
    SearchCounts(t.nodes[p], s, i);
  }

  /** `s` is above the bound of node `n`, and no larger than its largest key unless that is the
      largest key of all. */
  ghost predicate Fits(t: Arena, root: nat, n: nat, s: Str) {
    && n < |t.nodes| == |t.lo| && root < |t.nodes| && t.nodes[n].Sized() && t.nodes[root].Sized()
    && (t.lo[n].Above? ==> Less(t.lo[n].k, s))
    && (Leq(s, t.nodes[n].key[0]) || t.nodes[n].key[0] == t.nodes[root].key[0])
  }

  lemma RootFits(t: Arena, root: nat, s: Str)
    requires TreeOk(t, root, Closed)
    ensures Fits(t, root, root, s)
  {
    assert NodeOk(t, root, Closed) && Attached(t, root, root, Closed);
  }

  lemma LeqLessContradiction(a: Str, b: Str)
    requires Leq(a, b)
    ensures !Less(b, a)
  {
    TotalOrder(a, b);
  }

  /** Keys behind the first smaller one are smaller, too. */
  lemma SmallerKeysFollow(n: Node, s: Str, i: nat)
    requires n.Sized() && Descending(n) && i < n.keynum && Less(n.key[i], s)
    ensures forall k :: i <= k < n.keynum ==> Less(n.key[k], s)
  {
    forall k | i < k < n.keynum
      ensures Less(n.key[k], s)
    {
      LessTransitive(n.key[k], n.key[i], s);
    }
  }

  /** Descending into the child the code picks keeps the key fitting. */
  lemma ChildFits(t: Arena, root: nat, n: nat, s: Str, i: nat)
    requires TreeOk(t, root, Closed) && n < |t.nodes| && !t.nodes[n].leaf
    requires Fits(t, root, n, s) && SearchResult(t.nodes[n], s, i)
    ensures var j := if i > 0 then i - 1 else i;
            && t.nodes[n].ptr[j].At? && t.nodes[n].ptr[j].id < |t.nodes|
            && Fits(t, root, t.nodes[n].ptr[j].id, s)
            && t.level[t.nodes[n].ptr[j].id] + 1 == t.level[n] && t.nodes[t.nodes[n].ptr[j].id].Sized()
  {
    hide Less, Leq;
    var j := if i > 0 then i - 1 else i;
    assert NodeOk(t, n, Closed);
    assert NodeOk(t, root, Closed);
    assert KidOk(t, n, j, Closed);
  }

  /** Every key of an earlier leaf is above the first key of every later one. */
  lemma {:induction false} LeavesDescend(t: Arena, root: nat, data: Ptr, chain: seq<nat>, a: nat, b: nat, i: nat)
    requires TreeOk(t, root, Closed) && LeavesOk(t, data, chain) && a < b < |chain|
    requires i < t.nodes[chain[a]].keynum
    ensures Less(t.nodes[chain[b]].key[0], t.nodes[chain[a]].key[i])
    decreases b - a
  {
    hide Less;
    assert NodeOk(t, chain[a], Closed);
    assert LeafOk(t, chain, a);
    if a + 1 < b {
      LeavesDescend(t, root, data, chain, a + 1, b, 0);
      LessTransitive(t.nodes[chain[b]].key[0], t.nodes[chain[a + 1]].key[0], t.nodes[chain[a]].key[i]);
    }
  }

  /** A key that fits a leaf is in no later leaf. */
  lemma NotInLaterLeaf(t: Arena, root: nat, data: Ptr, chain: seq<nat>, a: nat, b: nat, s: Str)
    requires TreeOk(t, root, Closed) && LeavesOk(t, data, chain) && a < b < |chain|
    requires Fits(t, root, chain[a], s)
    ensures !InLeaf(t.nodes[chain[b]], s)
  {
    hide Less, Leq;
    var n := t.nodes[chain[b]];
    assert NodeOk(t, chain[b], Closed);
    assert LeafOk(t, chain, a);
    forall i | 0 <= i < n.keynum
      ensures n.key[i] != s
    {
      if a + 1 < b {
        LeavesDescend(t, root, data, chain, a + 1, b, 0);
      }
      LaterKeySmaller(n.key[i], n.key[0], t.nodes[chain[a + 1]].key[0], s);
    }
  }

  lemma LaterKeySmaller(k: Str, first: Str, bound: Str, s: Str)
    requires Leq(k, first) && Leq(first, bound) && Less(bound, s)
    ensures k != s
  {
    LeqTransitive(k, first, bound);
    LeqLessContradiction(k, bound);
  }

  /** A key that fits a leaf is in no earlier leaf. */
  lemma NotInEarlierLeaf(t: Arena, root: nat, data: Ptr, chain: seq<nat>, a: nat, b: nat, s: Str)
    requires TreeOk(t, root, Closed) && LeavesOk(t, data, chain) && b < a < |chain|
    requires Fits(t, root, chain[a], s)
    ensures !InLeaf(t.nodes[chain[b]], s)
  {
    hide Less, Leq;
    var n := t.nodes[chain[b]];
    assert NodeOk(t, chain[b], Closed);
    MaxAtRoot(t, root, chain[b], Closed);
    forall i | 0 <= i < n.keynum
      ensures n.key[i] != s
    {
      LeavesDescend(t, root, data, chain, b, a, i);
      LeqTransitive(n.key[i], n.key[0], t.nodes[root].key[0]);
      EarlierKeyLarger(t.nodes[chain[a]].key[0], n.key[i], t.nodes[root].key[0], s);
    }
  }

  lemma EarlierKeyLarger(first: Str, k: Str, largest: Str, s: Str)
    requires Less(first, k) && Leq(k, largest) && (Leq(s, first) || first == largest)
    ensures k != s
  {
    TotalOrder(first, k);
    TotalOrder(k, largest);
    TotalOrder(s, first);
  }

  /** The leaf the search ends in decides membership for the whole tree. */
  lemma LeafDecides(t: Arena, root: nat, data: Ptr, chain: seq<nat>, n: nat, s: Str)
    requires TreeOk(t, root, Closed) && LeavesOk(t, data, chain) && n < |t.nodes|
    requires t.nodes[n].leaf && Fits(t, root, n, s)
    ensures Contains(t, s) <==> InLeaf(t.nodes[n], s)
  {
    var a :| 0 <= a < |chain| && chain[a] == n;
    forall m | 0 <= m < |t.nodes| && m != n
      ensures !InLeaf(t.nodes[m], s)
    {
      if t.nodes[m].leaf {
        var b :| 0 <= b < |chain| && chain[b] == m;
        if a < b {
          NotInLaterLeaf(t, root, data, chain, a, b, s);
        } else {
          NotInEarlierLeaf(t, root, data, chain, a, b, s);
        }
      }
    }
  }

  /** At a leaf, the key just before the insertion point is the only one that can be equal. */
  lemma LeafHit(n: Node, s: Str, i: nat)
    requires n.leaf && n.Sized() && Descending(n) && SearchResult(n, s, i)
    ensures InLeaf(n, s) <==> i > 0 && n.key[i - 1] == s
  {
    forall k | 0 <= k < n.keynum && n.key[k] == s
      ensures k == i - 1
    {
      TotalOrder(s, s);
      assert k < i - 1 ==> Less(n.key[i - 1], n.key[k]) && Leq(s, n.key[i - 1]);
      if i > 0 {
        TotalOrder(n.key[i - 1], s);
      }
    }
  }

  // ---- the leaf list ----

  /** The keys along the leaf list, from its `a`-th leaf on. */
  ghost function LeafKeys(t: Arena, chain: seq<nat>, a: nat): seq<Str>
    requires forall j :: 0 <= j < |chain| ==> chain[j] < |t.nodes| && t.nodes[chain[j]].Sized()
    decreases |chain| - a
  {
    if a >= |chain| then []
    else
      var n := t.nodes[chain[a]];
      assert n.Sized();
      n.key[..n.keynum] + LeafKeys(t, chain, a + 1)
  }

  /** Where a key of the leaf list comes from. */
  lemma {:induction false} LeafKeyOrigin(t: Arena, chain: seq<nat>, a: nat, x: nat) returns (b: nat, i: nat)
    requires forall j :: 0 <= j < |chain| ==> chain[j] < |t.nodes| && t.nodes[chain[j]].Sized()
    requires x < |LeafKeys(t, chain, a)|
    ensures a <= b < |chain| && i < t.nodes[chain[b]].keynum && LeafKeys(t, chain, a)[x] == t.nodes[chain[b]].key[i]
    decreases |chain| - a
  {
    var n := t.nodes[chain[a]];
    assert n.Sized();
    if x < n.keynum {
      b, i := a, x;
    } else {
      b, i := LeafKeyOrigin(t, chain, a + 1, x - n.keynum);
    }
  }

  /** The leaf list gives all keys once, in strictly descending order. */
  lemma {:induction false} LeafKeysDescend(t: Arena, root: nat, data: Ptr, chain: seq<nat>, a: nat)
    requires TreeOk(t, root, Closed) && LeavesOk(t, data, chain)
    ensures forall x, y :: 0 <= x < y < |LeafKeys(t, chain, a)| ==>
              Less(LeafKeys(t, chain, a)[y], LeafKeys(t, chain, a)[x])
    decreases |chain| - a
  {
    hide Less, Leq;
    if a < |chain| {
      var n := t.nodes[chain[a]];
      var rest := LeafKeys(t, chain, a + 1);
      LeafKeysDescend(t, root, data, chain, a + 1);
      assert NodeOk(t, chain[a], Closed);
      forall x, y | 0 <= x < n.keynum && 0 <= y < |rest|
        ensures Less(rest[y], n.key[x])
      {
        var b, i := LeafKeyOrigin(t, chain, a + 1, y);
        assert NodeOk(t, chain[b], Closed);
        LeavesDescend(t, root, data, chain, a, b, x);
        LeqLess(rest[y], t.nodes[chain[b]].key[0], n.key[x]);
      }
    }
  }

  lemma LeqLess(a: Str, b: Str, c: Str)
    requires Leq(a, b) && Less(b, c)
    ensures Less(a, c)
  {
    LessLeqTransitive(a, b, c);
  }

  /** The leaf list gives exactly the keys of the tree. */
  lemma LeafKeysComplete(t: Arena, data: Ptr, chain: seq<nat>, k: Str)
    requires LeavesOk(t, data, chain)
    ensures k in LeafKeys(t, chain, 0) <==> Contains(t, k)
  {
    hide Less;
    if k in LeafKeys(t, chain, 0) {
      var x :| 0 <= x < |LeafKeys(t, chain, 0)| && LeafKeys(t, chain, 0)[x] == k;
      var b, i := LeafKeyOrigin(t, chain, 0, x);
      assert LeafOk(t, chain, b);
      assert InLeaf(t.nodes[chain[b]], k);
    }
    if Contains(t, k) {
      var n :| 0 <= n < |t.nodes| && InLeaf(t.nodes[n], k);
      var b: nat :| b < |chain| && chain[b] == n;
      LeafKeysInclude(t, chain, 0, b, k);
    }
  }

  lemma {:induction false} LeafKeysInclude(t: Arena, chain: seq<nat>, a: nat, b: nat, k: Str)
    requires forall j :: 0 <= j < |chain| ==> chain[j] < |t.nodes| && t.nodes[chain[j]].Sized()
    requires a <= b < |chain| && InLeaf(t.nodes[chain[b]], k)
    ensures k in LeafKeys(t, chain, a)
    decreases b - a
  {
    if a < b {
      LeafKeysInclude(t, chain, a + 1, b, k);
    } else {
      var n := t.nodes[chain[b]];
      var i :| 0 <= i < n.keynum && n.key[i] == k;
      assert n.key[..n.keynum][i] == k;
      assert LeafKeys(t, chain, a) == n.key[..n.keynum] + LeafKeys(t, chain, a + 1);
    }
  }
}
