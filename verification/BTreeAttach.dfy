/** Entering the right half of a split node in its parent, or under a new root. */
module BTreeAttach {
  import opened Strings
  import opened Order
  import opened Pointers
  import opened BTree
  import opened BTreeSearch
  import opened BTreeInsert

  /** The right half `ap` of `q` is stored in the parent `p`, at the place Search gives its key. */
  ghost predicate AttachStep(t: Arena, t': Arena, root: nat, q: nat, ap: nat, p: nat, i: nat) {
    && TreeOk(t, root, Orphan(q, ap)) && t'.lo == t.lo && t'.level == t.level
    && q < |t.nodes| && ap < |t.nodes| && p < |t.nodes| && t.nodes[q].parent == At(p)
    && t.nodes[ap].Sized() && t.nodes[p].Sized() && t.nodes[p].keynum <= M
    && SearchResult(t.nodes[p], t.nodes[ap].key[0], i)
    && InsertedNodes(t.nodes, t'.nodes, p, i, t.nodes[ap].key[0], At(ap), {})
  }

  /** The parent has room, and the place is not its first slot. */
  lemma ParentHasRoom(t: Arena, root: nat, q: nat, ap: nat, p: nat, i: nat)
    requires TreeOk(t, root, Orphan(q, ap)) && q < |t.nodes| && ap < |t.nodes| && p < |t.nodes|
    requires t.nodes[q].parent == At(p) && t.nodes[ap].Sized() && t.nodes[p].Sized()
    requires SearchResult(t.nodes[p], t.nodes[ap].key[0], i)
    ensures 0 < i <= t.nodes[p].keynum <= M
  {
    hide Less, Leq;
    var h := Orphan(q, ap);
    assert NodeOk(t, p, h) && NodeOk(t, q, h) && NodeOk(t, ap, h) && Attached(t, root, q, h) &&
           Attached(t, root, root, h);
    assert Filled(t, root, p, h);
    var k :| 0 <= k < t.nodes[p].keynum && t.nodes[p].ptr[k] == At(q);
    assert KidOk(t, p, k, h);
    assert OrphanOk(t, root, h);
    hide TreeOk;
    SplitKeyBetween(t, p, k, i, t.nodes[ap].key[0], t.lo[ap]);
  }

  /** The left half is the child just before the place Search gives for the right half. */
  lemma SplitChildIndex(t: Arena, t': Arena, root: nat, q: nat, ap: nat, p: nat, i: nat)
    requires AttachStep(t, t', root, q, ap, p, i)
    ensures |t.nodes| == |t.lo| == |t.level| && NodeOk(t, p, Orphan(q, ap)) && !t.nodes[p].leaf
    ensures 0 < i && t.nodes[p].ptr[i - 1] == At(q)
    ensures t.level[q] + 1 == t.level[p] && q != root
    ensures t.lo[ap] == NextBound(t, p, i - 1)
    ensures forall k :: 0 <= k < i ==> Less(t.nodes[ap].key[0], t.nodes[p].key[k])
    ensures forall k :: i <= k < t.nodes[p].keynum ==> Less(t.nodes[p].key[k], t.nodes[ap].key[0])
    ensures t.lo[p].Above? ==> Less(t.lo[p].k, t.nodes[ap].key[0])
  {
    hide Less, Leq, Filled;
    var h := Orphan(q, ap);
    assert NodeOk(t, p, h) && NodeOk(t, q, h) && NodeOk(t, ap, h) && Attached(t, root, q, h);
    var k :| 0 <= k < t.nodes[p].keynum && t.nodes[p].ptr[k] == At(q);
    assert KidOk(t, p, k, h);
    hide TreeOk, InsertedNodes;
    SplitKeyBetween(t, p, k, i, t.nodes[ap].key[0], t.lo[ap]);
  }

  /** A key below child `k` but above everything to its right is searched to position `k + 1`. */
  lemma SplitKeyBetween(t: Arena, p: nat, k: nat, i: nat, x: Str, b: Bound)
    requires p < |t.nodes| == |t.lo| && t.nodes[p].Sized() && Descending(t.nodes[p]) && AboveBound(t.lo[p], t.nodes[p])
    requires k < t.nodes[p].keynum && Less(x, t.nodes[p].key[k]) && b == NextBound(t, p, k)
    requires b.Above? ==> Less(b.k, x)
    requires SearchResult(t.nodes[p], x, i)
    ensures i == k + 1
    ensures forall j :: 0 <= j < i ==> Less(x, t.nodes[p].key[j])
    ensures t.lo[p].Above? ==> Less(t.lo[p].k, x)
  {
    var n := t.nodes[p];
    TotalOrder(x, n.key[k]);
    assert k < i;
    if k + 1 < n.keynum {
      TotalOrder(x, n.key[k + 1]);
      assert i <= k + 1;
      if t.lo[p].Above? {
        LessTransitive(t.lo[p].k, n.key[k + 1], x);
      }
    }
    forall j | 0 <= j < k
      ensures Less(x, n.key[j])
    {
      LessTransitive(x, n.key[k], n.key[j]);
    }
  }

  /** What is known at the parent when the right half is entered there. */
  ghost predicate AtParent(t: Arena, t': Arena, q: nat, ap: nat, p: nat, i: nat) {
    && t'.lo == t.lo && t'.level == t.level && |t'.nodes| == |t.nodes| == |t.lo| == |t.level|
    && q < |t.nodes| && ap < |t.nodes| && p < |t.nodes| && q != ap && q != p && ap != p
    && NodeOk(t, p, Orphan(q, ap)) && !t.nodes[p].leaf && t.nodes[ap].Sized()
    && 0 < i <= t.nodes[p].keynum <= M && t.nodes[p].ptr[i - 1] == At(q)
    && ShiftedIn(t.nodes[p], t'.nodes[p], i, t.nodes[ap].key[0], At(ap))
    && (forall n :: 0 <= n < |t.nodes| && n != p ==> t'.nodes[n] == t.nodes[n])
    && t.nodes[ap].parent == At(p) && t.level[ap] + 1 == t.level[p]
    && t.lo[q] == Above(t.nodes[ap].key[0]) && t.lo[ap] == NextBound(t, p, i - 1)
  }

  lemma AttachAtParent(t: Arena, t': Arena, root: nat, q: nat, ap: nat, p: nat, i: nat)
    requires AttachStep(t, t', root, q, ap, p, i)
    ensures AtParent(t, t', q, ap, p, i)
  {
    SplitChildIndex(t, t', root, q, ap, p, i);
    assert Attached(t, root, ap, Orphan(q, ap));
    hide NodeOk, Filled, Less, SearchResult;
  }

  lemma ParentKidOk(t: Arena, t': Arena, q: nat, ap: nat, p: nat, i: nat, k: nat)
    requires AtParent(t, t', q, ap, p, i) && k <= t.nodes[p].keynum
    ensures t'.nodes[p].Sized() && k < t'.nodes[p].keynum && KidOk(t', p, k, Over(p))
  {
    hide Less, AboveBound;
    var h := Orphan(q, ap);
    assert KidOk(t, p, i - 1, h);
    if k != i && k != i - 1 {
      var k' := if k < i then k else k - 1;
      assert KidOk(t, p, k', h);
      TotalOrder(t.nodes[p].key[k'], t.nodes[p].key[i - 1]);
      assert t.nodes[p].ptr[k'].id != q;
    }
  }

  lemma ParentOk(t: Arena, t': Arena, root: nat, q: nat, ap: nat, p: nat, i: nat)
    requires AttachStep(t, t', root, q, ap, p, i)
    ensures p < |t'.nodes| == |t'.lo| == |t'.level| && NodeOk(t', p, Over(p))
  {
    AttachAtParent(t, t', root, q, ap, p, i);
    SplitChildIndex(t, t', root, q, ap, p, i);
    hide AttachStep, KidOk, Less;
    var x := t.nodes[ap].key[0];
    forall k: nat | k <= t.nodes[p].keynum
      ensures KidOk(t', p, k, Over(p))
    {
      ParentKidOk(t, t', q, ap, p, i, k);
    }
  }

  lemma OtherNodeOk(t: Arena, t': Arena, root: nat, q: nat, ap: nat, p: nat, i: nat, n: nat)
    requires AttachStep(t, t', root, q, ap, p, i) && n < |t.nodes| && n != p
    ensures n < |t'.nodes| == |t'.lo| == |t'.level| && NodeOk(t', n, Over(p))
  {
    var h := Orphan(q, ap);
    AttachAtParent(t, t', root, q, ap, p, i);
    SplitChildIndex(t, t', root, q, ap, p, i);
    assert NodeOk(t, n, h) && t.nodes[q].parent == At(p);
    hide AttachStep, Less;
    if !t.nodes[n].leaf {
      forall k | 0 <= k < t.nodes[n].keynum && t.nodes[n].ptr[k].At?
        ensures SameFace(t, t', h, Over(p), t.nodes[n].ptr[k].id)
      {
        assert KidOk(t, n, k, h);
      }
    }
    hide KidOk, SameFace, AtParent;
    NodeOkFrame(t, t', n, h, Over(p));
  }

  lemma AttachedAfter(t: Arena, t': Arena, root: nat, q: nat, ap: nat, p: nat, i: nat, n: nat)
    requires AtParent(t, t', q, ap, p, i) && n < |t.nodes| && t.nodes[q].parent == At(p) && q != root && ap != root
    requires Attached(t, root, n, Orphan(q, ap))
    ensures Attached(t', root, n, Over(p))
  {
    hide KidOk, Descending, AboveBound, Less;
    if n == ap {
      assert t'.nodes[p].ptr[i] == At(n);
    } else if n != root {
      var pp := t.nodes[n].parent.id;
      var k :| 0 <= k < t.nodes[pp].keynum && t.nodes[pp].ptr[k] == At(n);
      var k' := if pp == p && k >= i then k + 1 else k;
      assert t'.nodes[pp].ptr[k'] == At(n);
    }
  }

  /** Entering the right half in the parent completes the tree again, up to one key too many there. */
  lemma SiblingAttached(t: Arena, t': Arena, root: nat, q: nat, ap: nat, p: nat, i: nat)
    requires AttachStep(t, t', root, q, ap, p, i)
    ensures TreeOk(t', root, Over(p))
  {
    AttachAtParent(t, t', root, q, ap, p, i);
    SplitChildIndex(t, t', root, q, ap, p, i);
    ParentOk(t, t', root, q, ap, p, i);
    hide NodeOk, Attached, SearchResult, AtParent;
    forall n: nat | n < |t'.nodes|
      ensures NodeOk(t', n, Over(p)) && Attached(t', root, n, Over(p)) && Filled(t', root, n, Over(p))
    {
      assert Filled(t, root, n, Orphan(q, ap));
      if n != p {
        OtherNodeOk(t, t', root, q, ap, p, i, n);
      }
      assert Attached(t, root, n, Orphan(q, ap));
      AttachedAfter(t, t', root, q, ap, p, i, n);
    }
  }

  /** Inner nodes do not matter for the leaf list and the stored keys. */
  lemma AttachKeepsLeaves(t: Arena, t': Arena, root: nat, q: nat, ap: nat, p: nat, i: nat, data: Ptr, chain: seq<nat>)
    requires AttachStep(t, t', root, q, ap, p, i) && LeavesOk(t, data, chain)
    ensures LeavesOk(t', data, chain)
    ensures forall k :: Contains(t', k) <==> Contains(t, k)
  {
    AttachAtParent(t, t', root, q, ap, p, i);
    hide AttachStep, NodeOk, Less;
    forall j: nat | 0 < j < |chain|
      ensures t'.nodes[chain[j]].Sized() && t'.nodes[chain[j]].key[0] == t.nodes[chain[j]].key[0]
    {
      assert LeafOk(t, chain, j);
    }
    LeavesFrame(t, t', data, chain);
    forall k
      ensures Contains(t', k) <==> Contains(t, k)
    {
      assert forall n :: 0 <= n < |t.nodes| ==> (InLeaf(t'.nodes[n], k) <==> InLeaf(t.nodes[n], k));
    }
  }

  // ---- a new root ----

  /** The root has been split: a new root takes the two halves. */
  ghost predicate NewRootStep(t: Arena, t': Arena, root: nat, ap: nat) {
    && TreeOk(t, root, Orphan(root, ap)) && root < |t.nodes| == |t.lo| == |t.level| && ap < |t.nodes|
    && t.nodes[root].Sized() && t.nodes[ap].Sized()
    && t'.lo == t.lo + [Bottom] && t'.level == t.level + [t.level[root] + 1]
    && |t'.nodes| == |t.nodes| + 1
    && (var r := t'.nodes[|t.nodes|];
        && r.Sized() && r.keynum == 2 && !r.leaf && r.parent == Null
        && r.key[0] == t.nodes[root].key[0] && r.key[1] == t.nodes[ap].key[0]
        && r.ptr[0] == At(root) && r.ptr[1] == At(ap))
    && forall n :: 0 <= n < |t.nodes| ==>
         t'.nodes[n] == t.nodes[n].(parent := if n == root || n == ap then At(|t.nodes|) else t.nodes[n].parent)
  }

  /** The new node with its two entries, before the old root learns its parent. */
  lemma TwoChildren(t: Arena, single: seq<Node>, nodes: seq<Node>, root: nat, ap: nat)
    requires TreeOk(t, root, Orphan(root, ap)) && root < |t.nodes| == |t.lo| == |t.level| && ap < |t.nodes|
    requires root != ap
    requires t.nodes[root].Sized() && t.nodes[ap].Sized() && |single| == |t.nodes| + 1
    requires var r := single[|t.nodes|];
             r.Sized() && r.keynum == 1 && r.parent == Null && r.key[0] == t.nodes[ap].key[0] && r.ptr[0] == At(ap) &&
               !r.leaf
    requires forall n :: 0 <= n < |t.nodes| ==>
               single[n] == t.nodes[n].(parent := if n == ap then At(|t.nodes|) else t.nodes[n].parent)
    requires InsertedNodes(single, nodes, |t.nodes|, 0, t.nodes[root].key[0], At(root), {})
    ensures |nodes| == |t.nodes| + 1
    ensures var linked := nodes[root := nodes[root].(parent := At(|t.nodes|))];
            var inner := linked[|t.nodes| := nodes[|t.nodes|].(leaf := false)];
            NewRootStep(t, Arena(inner, t.lo + [Bottom], t.level + [t.level[root] + 1]), root, ap)
  {
  }

  lemma NewRootItselfOk(t: Arena, t': Arena, root: nat, ap: nat)
    requires NewRootStep(t, t', root, ap)
    ensures |t.nodes| < |t'.nodes| == |t'.lo| == |t'.level| && NodeOk(t', |t.nodes|, Closed)
  {
    var r := |t.nodes|;
    var h := Orphan(root, ap);
    assert NodeOk(t, root, h) && Attached(t, root, root, h);
    hide Less, Filled;
    assert KidOk(t', r, 0, Closed) && KidOk(t', r, 1, Closed);
  }

  lemma OldNodeOk(t: Arena, t': Arena, root: nat, ap: nat, n: nat)
    requires NewRootStep(t, t', root, ap) && n < |t.nodes|
    ensures n < |t'.nodes| == |t'.lo| == |t'.level| && NodeOk(t', n, Closed)
  {
    var h := Orphan(root, ap);
    assert NodeOk(t, n, h) && Attached(t, root, root, h) && Attached(t, root, ap, h);
    hide Less, TreeOk;
    if !t.nodes[n].leaf {
      forall k | 0 <= k < t.nodes[n].keynum && t.nodes[n].ptr[k].At?
        ensures SameFace(t, t', h, Closed, t.nodes[n].ptr[k].id)
      {
        assert KidOk(t, n, k, h);
      }
    }
    hide KidOk, SameFace;
    NodeOkFrame(t, t', n, h, Closed);
  }

  lemma OldNodeAttached(t: Arena, t': Arena, root: nat, ap: nat, n: nat)
    requires NewRootStep(t, t', root, ap) && n < |t.nodes|
    ensures n < |t'.nodes| == |t'.lo| && Attached(t', |t.nodes|, n, Closed)
  {
    var r := |t.nodes|;
    assert Attached(t, root, n, Orphan(root, ap));
    hide TreeOk;
    if n == root {
      assert t'.nodes[r].ptr[0] == At(n);
    } else if n == ap {
      assert t'.nodes[r].ptr[1] == At(n);
    } else {
      var p := t.nodes[n].parent.id;
      var k :| 0 <= k < t.nodes[p].keynum && t.nodes[p].ptr[k] == At(n);
      assert t'.nodes[p].ptr[k] == At(n);
    }
  }

  /** Under a new root the tree is complete: one level higher, every leaf still at the bottom. */
  lemma RootGrown(t: Arena, t': Arena, root: nat, ap: nat)
    requires NewRootStep(t, t', root, ap)
    ensures TreeOk(t', |t.nodes|, Closed)
  {
    NewRootItselfOk(t, t', root, ap);
    hide NodeOk, Attached;
    forall n: nat | n < |t'.nodes|
      ensures NodeOk(t', n, Closed) && Attached(t', |t.nodes|, n, Closed) && Filled(t', |t.nodes|, n, Closed)
    {
      if n < |t.nodes| {
        OldNodeOk(t, t', root, ap, n);
        OldNodeAttached(t, t', root, ap, n);
        OldNodeFilled(t, t', root, ap, n);
      }
    }
  }

  lemma OldNodeFilled(t: Arena, t': Arena, root: nat, ap: nat, n: nat)
    requires NewRootStep(t, t', root, ap) && n < |t.nodes|
    ensures n < |t'.nodes| && Filled(t', |t.nodes|, n, Closed)
  {
    hide NodeOk, Attached;
    assert Filled(t, root, n, Orphan(root, ap));
  }

  lemma NewRootKeepsLeaves(t: Arena, t': Arena, root: nat, ap: nat, data: Ptr, chain: seq<nat>)
    requires NewRootStep(t, t', root, ap) && LeavesOk(t, data, chain)
    ensures LeavesOk(t', data, chain)
    ensures forall k :: Contains(t', k) <==> Contains(t, k)
  {
    hide TreeOk, Less;
    forall j: nat | j < |chain|
      ensures LeafOk(t', chain, j)
    {
      assert LeafOk(t, chain, j);
    }
    forall k
      ensures Contains(t', k) <==> Contains(t, k)
    {
      assert forall n :: 0 <= n < |t.nodes| ==> (InLeaf(t'.nodes[n], k) <==> InLeaf(t.nodes[n], k));
    }
  }
}
