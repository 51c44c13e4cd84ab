/** The states between the steps of an insertion, as the climbing loop sees them. */
module BTreeHoles {
  import opened Strings
  import opened Order
  import opened Pointers
  import opened BTree
  import opened BTreeInsert

  /** A node that may have one key too many; none of its children is the node itself. */
  lemma OverFacts(t: Arena, root: nat, q: nat)
    requires TreeOk(t, root, Over(q)) && q < |t.nodes|
    ensures |t.nodes| == |t.lo| == |t.level| && root < |t.nodes| && t.level[q] <= t.level[root]
    ensures t.nodes[q].Sized() && t.nodes[q].keynum <= M + 1
    ensures t.nodes[q].keynum == M + 1 ==>
              forall k :: 0 <= k <= M && t.nodes[q].ptr[k].At? ==>
                t.nodes[q].ptr[k].id < |t.nodes| && t.nodes[q].ptr[k].id != q
  {
    assert NodeOk(t, q, Over(q));
    if !t.nodes[q].leaf && t.nodes[q].keynum == M + 1 {
      forall k | 0 <= k <= M && t.nodes[q].ptr[k].At?
        ensures t.nodes[q].ptr[k].id < |t.nodes| && t.nodes[q].ptr[k].id != q
      {
        assert KidOk(t, q, k, Over(q));
      }
    }
  }

  /** Both halves of a split node have the same parent: none, or a node one level up. */
  lemma OrphanFacts(t: Arena, root: nat, q: nat, ap: nat)
    requires TreeOk(t, root, Orphan(q, ap))
    ensures |t.nodes| == |t.lo| == |t.level| && root < |t.nodes| && q < |t.nodes| && ap < |t.nodes| && q != ap
    ensures t.nodes[ap].Sized() && t.nodes[q].Sized() && t.level[q] <= t.level[root]
    ensures t.nodes[q].parent == Null <==> q == root
    ensures t.nodes[q].parent.At? ==>
              && var p := t.nodes[q].parent.id;
              && p < |t.nodes| && t.nodes[p].Sized() && Descending(t.nodes[p]) &&
                 t.level[p] == t.level[q] + 1 <= t.level[root]
  {
    hide Less;
    var h := Orphan(q, ap);
    assert NodeOk(t, ap, h) && NodeOk(t, q, h) && Attached(t, root, q, h);
    if q != root {
      var p := t.nodes[q].parent.id;
      assert NodeOk(t, p, h);
      var k :| 0 <= k < t.nodes[p].keynum && t.nodes[p].ptr[k] == At(q);
      assert KidOk(t, p, k, h);
    }
  }

  lemma PointFacts(t: Arena, root: nat, q: nat, i: nat, s: Str)
    requires TreeOk(t, root, Closed) && InsertionPoint(t, root, q, i, s)
    ensures q < |t.nodes| == |t.level| && root < |t.nodes| && t.level[q] <= t.level[root]
  {
  }

  /** When no key is too many, the tree is complete. */
  lemma HoleClosed(t: Arena, root: nat, q: nat)
    requires TreeOk(t, root, Over(q)) && q < |t.nodes| && t.nodes[q].keynum <= M
    ensures TreeOk(t, root, Closed)
  {
    hide Less;
    forall n: nat | n < |t.nodes|
      ensures NodeOk(t, n, Closed) && Attached(t, root, n, Closed) && Filled(t, root, n, Closed)
    {
      assert NodeOk(t, n, Over(q)) && Attached(t, root, n, Over(q)) && Filled(t, root, n, Over(q));
      if !t.nodes[n].leaf {
        forall i: nat | i < t.nodes[n].keynum
          ensures KidOk(t, n, i, Closed)
        {
          assert KidOk(t, n, i, Over(q));
        }
      }
    }
  }

  lemma ChainIndex(t: Arena, data: Ptr, chain: seq<nat>, q: nat) returns (j: nat)
    requires LeavesOk(t, data, chain) && q < |t.nodes| && t.nodes[q].leaf
    ensures j < |chain| && chain[j] == q
  {
    j :| j < |chain| && chain[j] == q;
  }

  /** The tree of one key. */
  lemma SingleLeaf(empty: Arena, t: Arena, x: Str)
    requires empty.nodes == [] && |t.nodes| == 1 && t.lo == [Bottom] && t.level == [0]
    requires t.nodes[0].Sized() && t.nodes[0].keynum == 1 && t.nodes[0].leaf
    requires t.nodes[0].parent == t.nodes[0].next == Null
    requires t.nodes[0].key[0] == x && t.nodes[0].ptr[0] == Null
    ensures TreeOk(t, 0, Closed) && LeavesOk(t, At(0), [0])
    ensures forall k :: Contains(t, k) <==> Contains(empty, k) || k == x
  {
  }
}
