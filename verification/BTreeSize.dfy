/** How many keys a B+ tree of a given height holds at least: every node but the root is half full. */
module BTreeSize {
  import opened Order
  import opened Pointers
  import opened BTree
  import opened BTreeSearch

  function Pow4(k: nat): nat {
    if k == 0 then 1 else 4 * Pow4(k - 1)
  }

  /** The fewest keys of a tree whose root is at level `h`. */
  function FewestKeys(h: nat): nat {
    if h == 0 then 1 else 2 * Pow4(h)
  }

  ghost function Layer(t: Arena, k: nat): set<nat>
    requires |t.nodes| == |t.level|
  {
    set n: nat {:trigger t.nodes[n]} | n < |t.nodes| && t.level[n] == k
  }

  /** The nodes whose parent is in `a`. */
  ghost function KidsOf(t: Arena, a: set<nat>): set<nat> {
    set n: nat {:trigger t.nodes[n]} | n < |t.nodes| && t.nodes[n].parent.At? && t.nodes[n].parent.id in a
  }

  /** The first `m` children of node `n`. */
  ghost function FirstKids(n: Node, m: nat): set<nat>
    requires n.Sized() && m <= n.keynum && forall i :: 0 <= i < m ==> n.ptr[i].At?
  {
    set i {:trigger n.ptr[i]} | 0 <= i < m :: n.ptr[i].id
  }

  lemma KidsPointBack(t: Arena, root: nat, n: nat, i: nat)
    requires TreeOk(t, root, Closed) && n < |t.nodes| && !t.nodes[n].leaf && t.nodes[n].Sized() && i < t.nodes[n].keynum
    ensures t.nodes[n].ptr[i].At? && t.nodes[n].ptr[i].id < |t.nodes|
    ensures t.nodes[t.nodes[n].ptr[i].id].parent == At(n)
    ensures forall j :: 0 <= j < i ==> t.nodes[n].ptr[j] != t.nodes[n].ptr[i]
  {
    hide Filled, Attached;
    assert NodeOk(t, n, Closed) && KidOk(t, n, i, Closed);
    forall j | 0 <= j < i
      ensures t.nodes[n].ptr[j] != t.nodes[n].ptr[i]
    {
      assert KidOk(t, n, j, Closed) && Less(t.nodes[n].key[i], t.nodes[n].key[j]);
      TotalOrder(t.nodes[n].key[i], t.nodes[n].key[j]);
    }
  }

  lemma OneMoreKid(n: Node, m: nat)
    requires n.Sized() && 0 < m <= n.keynum && forall i :: 0 <= i < m ==> n.ptr[i].At?
    ensures FirstKids(n, m) == FirstKids(n, m - 1) + {n.ptr[m - 1].id}
    ensures (forall j :: 0 <= j < m - 1 ==> n.ptr[j] != n.ptr[m - 1]) ==> n.ptr[m - 1].id !in FirstKids(n, m - 1)
  {
    var c := n.ptr[m - 1].id;
    forall x
      ensures x in FirstKids(n, m) <==> x in FirstKids(n, m - 1) || x == c
    {
      assert n.ptr[m - 1].id in FirstKids(n, m);
    }
  }

  lemma {:induction false} ManyKids(t: Arena, root: nat, n: nat, m: nat)
    requires TreeOk(t, root, Closed) && n < |t.nodes| && !t.nodes[n].leaf && t.nodes[n].Sized()
    requires m <= t.nodes[n].keynum
    ensures forall i :: 0 <= i < m ==> t.nodes[n].ptr[i].At?
    ensures |FirstKids(t.nodes[n], m)| == m && FirstKids(t.nodes[n], m) <= KidsOf(t, {n})
  {
    hide TreeOk;
    if m > 0 {
      ManyKids(t, root, n, m - 1);
      KidsPointBack(t, root, n, m - 1);
      OneMoreKid(t.nodes[n], m);
      hide FirstKids;
      assert t.nodes[n].ptr[m - 1].id in KidsOf(t, {n});
    } else {
      assert FirstKids(t.nodes[n], 0) == {};
    }
  }

  lemma KidsApart(t: Arena, a: set<nat>, n: nat)
    requires n in a
    ensures KidsOf(t, a) == KidsOf(t, a - {n}) + KidsOf(t, {n}) && KidsOf(t, a - {n}) !! KidsOf(t, {n})
  {
  }

  /** Inner nodes other than the root have at least four children each, all different. */
  lemma {:induction false} KidsOfMany(t: Arena, root: nat, a: set<nat>)
    requires TreeOk(t, root, Closed)
    requires forall n :: n in a ==> n < |t.nodes| && n != root && !t.nodes[n].leaf
    ensures |KidsOf(t, a)| >= 4 * |a|
  {
    if a != {} {
      var n :| n in a;
      KidsOfMany(t, root, a - {n});
      assert NodeOk(t, n, Closed) && Filled(t, root, n, Closed);
      hide TreeOk, NodeOk, Filled;
      ManyKids(t, root, n, t.nodes[n].keynum);
      SubsetSize(FirstKids(t.nodes[n], t.nodes[n].keynum), KidsOf(t, {n}));
      KidsApart(t, a, n);
      hide KidsOf, FirstKids;
    }
  }

  lemma {:induction false} SubsetSize<T>(a: set<T>, b: set<T>)
    requires a <= b
    ensures |a| <= |b|
  {
    if a != {} {
      var x :| x in a;
      SubsetSize(a - {x}, b - {x});
    }
  }

  lemma KidsOneLower(t: Arena, root: nat, k: nat)
    requires TreeOk(t, root, Closed)
    ensures KidsOf(t, Layer(t, k + 1)) <= Layer(t, k)
  {
    forall c | c in KidsOf(t, Layer(t, k + 1))
      ensures t.level[c] == k
    {
      hide Filled;
      var p := t.nodes[c].parent.id;
      assert p in Layer(t, k + 1) && Attached(t, root, c, Closed) && NodeOk(t, p, Closed);
      var i :| 0 <= i < t.nodes[p].keynum && t.nodes[p].ptr[i] == At(c);
      assert KidOk(t, p, i, Closed);
    }
  }

  /** Each layer is four times as large as the one above it, the root having two children. */
  lemma {:induction false} LayerSize(t: Arena, root: nat, k: nat)
    requires TreeOk(t, root, Closed) && k < t.level[root]
    ensures |Layer(t, k)| >= 2 * Pow4(t.level[root] - 1 - k)
    decreases t.level[root] - k
  {
    KidsOneLower(t, root, k);
    if k + 1 == t.level[root] {
      assert NodeOk(t, root, Closed) && Filled(t, root, root, Closed);
      hide TreeOk, NodeOk, Filled;
      ManyKids(t, root, root, t.nodes[root].keynum);
      assert KidsOf(t, {root}) <= KidsOf(t, Layer(t, k + 1));
      SubsetSize(FirstKids(t.nodes[root], t.nodes[root].keynum), Layer(t, k));
    } else {
      LayerSize(t, root, k + 1);
      forall n | n in Layer(t, k + 1)
        ensures n != root && !t.nodes[n].leaf
      {
        assert NodeOk(t, n, Closed);
      }
      hide TreeOk;
      KidsOfMany(t, root, Layer(t, k + 1));
      SubsetSize(KidsOf(t, Layer(t, k + 1)), Layer(t, k));
    }
  }

  lemma {:induction false} SeqCovers(c: seq<nat>, a: set<nat>)
    requires forall x :: x in a ==> x in c
    ensures |c| >= |a|
  {
    if c == [] {
      assert a == {};
    } else {
      SeqCovers(c[1..], a - {c[0]});
    }
  }

  /** Leaves with at least `m` keys each. */
  lemma {:induction false} KeysOfLeaves(t: Arena, chain: seq<nat>, a: nat, m: nat)
    requires a <= |chain|
    requires forall j :: 0 <= j < |chain| ==>
               chain[j] < |t.nodes| && t.nodes[chain[j]].Sized() && t.nodes[chain[j]].keynum >= m
    ensures |LeafKeys(t, chain, a)| >= m * (|chain| - a)
    decreases |chain| - a
  {
    if a < |chain| {
      KeysOfLeaves(t, chain, a + 1, m);
      assert m * (|chain| - a) == m * (|chain| - (a + 1)) + m;
    } else {
      assert m * (|chain| - a) == 0;
    }
  }

  /** A tree with its root at level `h` holds at least FewestKeys(h) keys. */
  lemma KeysAtLeast(t: Arena, root: nat, data: Ptr, chain: seq<nat>)
    requires TreeOk(t, root, Closed) && LeavesOk(t, data, chain)
    ensures |LeafKeys(t, chain, 0)| >= FewestKeys(t.level[root])
  {
    var h := t.level[root];
    forall n | n in Layer(t, 0)
      ensures n in chain
    {
      assert NodeOk(t, n, Closed);
    }
    SeqCovers(chain, Layer(t, 0));
    if h == 0 {
      assert root in Layer(t, 0);
      hide TreeOk;
      KeysOfLeaves(t, chain, 0, 1);
    } else {
      LayerSize(t, root, 0);
      forall j: nat | j < |chain|
        ensures chain[j] < |t.nodes| && t.nodes[chain[j]].Sized() && t.nodes[chain[j]].keynum >= 4
      {
        assert LeafOk(t, chain, j) && NodeOk(t, chain[j], Closed) && Filled(t, root, chain[j], Closed);
        assert NodeOk(t, root, Closed);
      }
      hide TreeOk, LeavesOk;
      KeysOfLeaves(t, chain, 0, 4);
    }
  }
}
