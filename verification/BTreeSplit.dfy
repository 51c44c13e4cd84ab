/** Splitting a node that has one key too many. */
module BTreeSplit {
  import opened Strings
  import opened Order
  import opened Pointers
  import opened BTree
  import opened BTreeInsert

  /** Child `c` of the split node goes to the right half. */
  ghost predicate Moved(n: Node, c: nat)
    requires n.Sized()
  {
    exists k :: S < k <= M && n.ptr[k] == At(c)
  }

  /** The right half: the upper slots, moved down. */
  ghost predicate RightHalf(n: Node, r: Node)
    requires n.Sized()
  {
    && r.Sized() && r.keynum == M - S
    && r.parent == n.parent && r.leaf == n.leaf && (n.leaf ==> r.next == n.next)
    && forall k :: 0 <= k < M - S ==> r.key[k] == n.key[k + S + 1] && r.ptr[k] == n.ptr[k + S + 1]
  }

  /** The arena after split: the left half stays in place, the right half is a new node, and the
      children that moved know their new parent. */
  ghost predicate SplitNodes(before: seq<Node>, after: seq<Node>, q: nat) {
    && q < |before| && |after| == |before| + 1
    && before[q].Sized() && before[q].keynum == M + 1
    && after[q] == before[q].(keynum := S + 1, next := if before[q].leaf then At(|before|) else before[q].next)
    && RightHalf(before[q], after[|before|])
    && forall n :: 0 <= n < |before| && n != q ==>
         after[n] == before[n].(parent := if Moved(before[q], n) then At(|before|) else before[n].parent)
  }

  ghost function SplitArena(t: Arena, q: nat, after: seq<Node>): Arena
    requires q < |t.nodes| == |t.lo| == |t.level| && t.nodes[q].Sized()
  {
    Arena(after, t.lo[q := Above(t.nodes[q].key[S + 1])] + [t.lo[q]], t.level + [t.level[q]])
  }

  ghost predicate SplitStep(t: Arena, t': Arena, root: nat, q: nat) {
    && TreeOk(t, root, Over(q)) && SplitNodes(t.nodes, t'.nodes, q) && t' == SplitArena(t, q, t'.nodes)
  }

  /** A child moves exactly when its slot is in the upper half. */
  lemma MovedIffUpper(t: Arena, h: Hole, q: nat, i: nat, c: nat)
    requires q < |t.nodes| == |t.lo| == |t.level| && !h.Orphan? && NodeOk(t, q, h) && !t.nodes[q].leaf
    requires t.nodes[q].keynum == M + 1 && i <= M && t.nodes[q].ptr[i] == At(c)
    ensures Moved(t.nodes[q], c) <==> i > S
  {
    hide Less;
    if Moved(t.nodes[q], c) {
      var k :| S < k <= M && t.nodes[q].ptr[k] == At(c);
      assert KidOk(t, q, i, h) && KidOk(t, q, k, h);
      TotalOrder(t.nodes[q].key[i], t.nodes[q].key[k]);
    }
  }

  /** Only children of the split node move. */
  lemma MovedIsChild(t: Arena, h: Hole, q: nat, c: nat)
    requires q < |t.nodes| == |t.lo| == |t.level| && !h.Orphan? && NodeOk(t, q, h)
    requires t.nodes[q].keynum == M + 1 && c < |t.nodes| && Moved(t.nodes[q], c)
    ensures !t.nodes[q].leaf && t.nodes[c].parent == At(q) && t.level[c] + 1 == t.level[q]
  {
    var k :| S < k <= M && t.nodes[q].ptr[k] == At(c);
    if !t.nodes[q].leaf {
      assert KidOk(t, q, k, h);
    }
  }

  lemma LeftKidOk(t: Arena, t': Arena, root: nat, q: nat, i: nat)
    requires SplitStep(t, t', root, q) && i <= S
    requires q < |t.nodes| == |t.lo| == |t.level| && NodeOk(t, q, Over(q)) && !t.nodes[q].leaf
    requires KidOk(t, q, i, Over(q))
    ensures q < |t'.nodes| == |t'.lo| == |t'.level| && t'.nodes[q].Sized() && i < t'.nodes[q].keynum
    ensures KidOk(t', q, i, Orphan(q, |t.nodes|))
  {
    hide TreeOk, AboveBound, Less;
    MovedIffUpper(t, Over(q), q, i, t.nodes[q].ptr[i].id);
  }

  lemma LeftHalfOk(t: Arena, t': Arena, root: nat, q: nat)
    requires SplitStep(t, t', root, q)
    ensures q < |t'.nodes| == |t'.lo| == |t'.level| && NodeOk(t', q, Orphan(q, |t.nodes|))
  {
    hide KidOk, Less, Attached, Filled;
    assert NodeOk(t, q, Over(q));
    if !t.nodes[q].leaf {
      forall i | 0 <= i <= S
        ensures KidOk(t', q, i, Orphan(q, |t.nodes|))
      {
        LeftKidOk(t, t', root, q, i);
      }
    }
  }

  lemma RightKidOk(t: Arena, t': Arena, root: nat, q: nat, i: nat)
    requires SplitStep(t, t', root, q) && i < M - S
    requires q < |t.nodes| == |t.lo| == |t.level| && NodeOk(t, q, Over(q)) && !t.nodes[q].leaf
    requires KidOk(t, q, i + S + 1, Over(q))
    ensures |t.nodes| < |t'.nodes| == |t'.lo| == |t'.level| && t'.nodes[|t.nodes|].Sized()
    ensures i < t'.nodes[|t.nodes|].keynum
    ensures KidOk(t', |t.nodes|, i, Orphan(q, |t.nodes|))
  {
  }

  lemma RightHalfOk(t: Arena, t': Arena, root: nat, q: nat)
    requires SplitStep(t, t', root, q)
    ensures |t.nodes| < |t'.nodes| == |t'.lo| == |t'.level| && NodeOk(t', |t.nodes|, Orphan(q, |t.nodes|))
  {
    hide KidOk, Less, Attached, Filled;
    assert NodeOk(t, q, Over(q));
    if !t.nodes[q].leaf {
      forall i | 0 <= i < M - S
        ensures KidOk(t', |t.nodes|, i, Orphan(q, |t.nodes|))
      {
        assert KidOk(t, q, i + S + 1, Over(q));
        RightKidOk(t, t', root, q, i);
      }
    }
  }

  lemma OtherNodeOk(t: Arena, t': Arena, root: nat, q: nat, n: nat)
    requires SplitStep(t, t', root, q) && n < |t.nodes| && n != q
    ensures n < |t'.nodes| == |t'.lo| == |t'.level| && |t.nodes| < |t'.lo| && NodeOk(t', n, Orphan(q, |t.nodes|))
  {
    hide Less, Attached, Filled;
    assert NodeOk(t, n, Over(q)) && NodeOk(t, q, Over(q));
    hide TreeOk;
    if !t.nodes[n].leaf {
      forall i | 0 <= i < t.nodes[n].keynum && t.nodes[n].ptr[i].At?
        ensures SameFace(t, t', Over(q), Orphan(q, |t.nodes|), t.nodes[n].ptr[i].id)
      {
        OtherKidFace(t, t', root, q, n, i);
      }
    }
    hide KidOk, SameFace;
    NodeOkFrame(t, t', n, Over(q), Orphan(q, |t.nodes|));
  }

  lemma OtherKidFace(t: Arena, t': Arena, root: nat, q: nat, n: nat, i: nat)
    requires SplitStep(t, t', root, q) && n < |t.nodes| && n != q && |t.nodes| == |t.lo| == |t.level| && q < |t.nodes|
    requires NodeOk(t, q, Over(q)) && NodeOk(t, n, Over(q)) && !t.nodes[n].leaf && i < t.nodes[n].keynum
    ensures t.nodes[n].ptr[i].At? && SameFace(t, t', Over(q), Orphan(q, |t.nodes|), t.nodes[n].ptr[i].id)
  {
    hide TreeOk, Less;
    assert KidOk(t, n, i, Over(q));
    var c := t.nodes[n].ptr[i].id;
    if Moved(t.nodes[q], c) {
      MovedIsChild(t, Over(q), q, c);
    }
  }

  lemma SplitAttached(t: Arena, t': Arena, root: nat, q: nat, n: nat)
    requires SplitStep(t, t', root, q) && n < |t.nodes|
    ensures n < |t'.nodes| == |t'.lo| && |t.nodes| < |t'.lo| && Attached(t', root, n, Orphan(q, |t.nodes|))
  {
    hide Less, Filled;
    assert NodeOk(t, q, Over(q)) && Attached(t, root, n, Over(q));
    hide TreeOk, NodeOk;
    if Moved(t.nodes[q], n) {
      MovedIsChild(t, Over(q), q, n);
      var k :| S < k <= M && t.nodes[q].ptr[k] == At(n);
      assert t'.nodes[|t.nodes|].ptr[k - S - 1] == At(n);
    } else if n != root {
      var p := t.nodes[n].parent.id;
      var i :| 0 <= i < t.nodes[p].keynum && t.nodes[p].ptr[i] == At(n);
      assert t'.nodes[p].ptr[i] == At(n);
    }
  }

  /** A split keeps the whole shape, but the right half still has to be entered in the parent. */
  lemma NodeSplit(t: Arena, t': Arena, root: nat, q: nat)
    requires SplitStep(t, t', root, q)
    ensures TreeOk(t', root, Orphan(q, |t.nodes|))
  {
    var h := Orphan(q, |t.nodes|);
    LeftHalfOk(t, t', root, q);
    RightHalfOk(t, t', root, q);
    hide NodeOk, Attached;
    forall n: nat | n < |t'.nodes|
      ensures NodeOk(t', n, h) && Filled(t', root, n, h)
    {
      if n != q && n < |t.nodes| {
        OtherNodeOk(t, t', root, q, n);
      }
      if n < |t.nodes| {
        assert Filled(t, root, n, Over(q));
      }
    }
    forall n: nat | n < |t'.nodes|
      ensures Attached(t', root, n, h)
    {
      if n < |t.nodes| {
        SplitAttached(t, t', root, q, n);
      } else {
        RightHalfAttached(t, t', root, q);
      }
    }
  }

  lemma RightHalfAttached(t: Arena, t': Arena, root: nat, q: nat)
    requires SplitStep(t, t', root, q)
    ensures |t.nodes| < |t'.nodes| == |t'.lo| && Attached(t', root, |t.nodes|, Orphan(q, |t.nodes|))
  {
  }

  // ---- the leaf list and the keys ----

  /** The leaf list after the split of leaf number `j`. */
  ghost function SplitChain(chain: seq<nat>, j: nat, ap: nat): seq<nat>
    requires j < |chain|
  {
    chain[..j + 1] + [ap] + chain[j + 1..]
  }

  lemma SplitChainAt(chain: seq<nat>, j: nat, ap: nat, k: nat)
    requires j < |chain| && k <= |chain|
    ensures |SplitChain(chain, j, ap)| == |chain| + 1
    ensures SplitChain(chain, j, ap)[k] == if k <= j then chain[k] else if k == j + 1 then ap else chain[k - 1]
  {
  }

  lemma SplitChainDistinct(chain: seq<nat>, j: nat, ap: nat)
    requires j < |chain| && Distinct(chain) && ap !in chain
    ensures Distinct(SplitChain(chain, j, ap))
  {
  }

  /** What a split changes in the fields the leaf list is made of. */
  lemma SplitLeafFields(t: Arena, t': Arena, root: nat, q: nat, n: nat)
    requires SplitStep(t, t', root, q) && n < |t.nodes|
    ensures |t.nodes| < |t'.nodes| == |t'.lo| && q < |t.nodes| == |t.lo|
    ensures t'.nodes[n].leaf == t.nodes[n].leaf && t'.nodes[n].key == t.nodes[n].key
    ensures t.nodes[n].Sized() ==> t'.nodes[n].Sized()
    ensures t'.nodes[n].next == if n == q && t.nodes[q].leaf then At(|t.nodes|) else t.nodes[n].next
    ensures n != q ==> t'.lo[n] == t.lo[n]
    ensures var r := t'.nodes[|t.nodes|];
            && r.Sized() && r.leaf == t.nodes[q].leaf && (r.leaf ==> r.next == t.nodes[q].next)
            && t'.lo[|t.nodes|] == t.lo[q] && t'.lo[q] == Above(r.key[0])
  {
  }

  lemma SplitLeafAt(t: Arena, t': Arena, root: nat, q: nat, data: Ptr, chain: seq<nat>, j: nat, k: nat)
    requires SplitStep(t, t', root, q) && LeavesOk(t, data, chain) && j < |chain| && chain[j] == q && k <= |chain|
    ensures |SplitChain(chain, j, |t.nodes|)| == |chain| + 1 && |t'.nodes| == |t'.lo|
    ensures LeafOk(t', SplitChain(chain, j, |t.nodes|), k)
  {
    hide SplitStep, SplitChain;
    SplitChainAt(chain, j, |t.nodes|, k);
    var source := if k <= j then k else k - 1;
    SplitLeafFields(t, t', root, q, chain[source]);
    if source + 1 < |chain| {
      SplitLeafFields(t, t', root, q, chain[source + 1]);
    }
    if k < |chain| {
      SplitChainAt(chain, j, |t.nodes|, k + 1);
    }
    assert LeafOk(t, chain, source) && (source != j ==> chain[source] != chain[j]);
    hide LeavesOk, Distinct;
  }

  lemma SplitKeepsLeaves(t: Arena, t': Arena, root: nat, q: nat, data: Ptr, chain: seq<nat>, j: nat)
    requires SplitStep(t, t', root, q) && LeavesOk(t, data, chain) && j < |chain| && chain[j] == q
    ensures LeavesOk(t', data, SplitChain(chain, j, |t.nodes|))
  {
    var d := SplitChain(chain, j, |t.nodes|);
    forall n: nat | n < |t.nodes|
      ensures t'.nodes[n].leaf == t.nodes[n].leaf
    {
      SplitLeafFields(t, t', root, q, n);
    }
    hide SplitStep;
    SplitChainAt(chain, j, |t.nodes|, 0);
    SplitChainDistinct(chain, j, |t.nodes|);
    hide SplitChain;
    forall k: nat | k < |d|
      ensures LeafOk(t', d, k) && d[k] < |t'.nodes| && t'.nodes[d[k]].Sized()
    {
      SplitLeafAt(t, t', root, q, data, chain, j, k);
    }
    hide LeafOk;
    forall n: nat | n < |t'.nodes| && t'.nodes[n].leaf
      ensures n in d
    {
      assert n < |t.nodes| ==> n in chain;
      SplitChainCovers(chain, j, |t.nodes|, n);
    }
  }

  lemma SplitChainCovers(chain: seq<nat>, j: nat, ap: nat, n: nat)
    requires j < |chain| && (n in chain || n == ap)
    ensures n in SplitChain(chain, j, ap)
  {
  }

  lemma InnerSplitKeepsLeaves(t: Arena, t': Arena, root: nat, q: nat, data: Ptr, chain: seq<nat>)
    requires SplitStep(t, t', root, q) && LeavesOk(t, data, chain) && !t.nodes[q].leaf
    ensures LeavesOk(t', data, chain)
  {
    forall n: nat | n < |t.nodes|
      ensures t'.nodes[n].leaf == t.nodes[n].leaf && t'.nodes[n].key == t.nodes[n].key
      ensures t'.nodes[n].next == t.nodes[n].next
      ensures (t.nodes[n].Sized() ==> t'.nodes[n].Sized()) && (n != q ==> t'.lo[n] == t.lo[n])
      ensures !t'.nodes[|t.nodes|].leaf
    {
      SplitLeafFields(t, t', root, q, n);
    }
    hide SplitStep;
    forall k: nat | k < |chain|
      ensures LeafOk(t', chain, k)
    {
      assert LeafOk(t, chain, k);
    }
  }

  /** A split moves keys; it loses none and invents none. */
  lemma SplitKeepsKeys(t: Arena, t': Arena, root: nat, q: nat, k: Str)
    requires SplitStep(t, t', root, q)
    ensures Contains(t', k) <==> Contains(t, k)
  {
    hide TreeOk;
    var n, l, r := t.nodes[q], t'.nodes[q], t'.nodes[|t.nodes|];
    HalvesKeepKeys(n, l, r, k);
    assert forall m :: 0 <= m < |t.nodes| && m != q ==> (InLeaf(t'.nodes[m], k) <==> InLeaf(t.nodes[m], k));
    hide InLeaf, SplitNodes;
    if Contains(t, k) {
      var m :| 0 <= m < |t.nodes| && InLeaf(t.nodes[m], k);
      assert InLeaf(t'.nodes[if m == q && !InLeaf(l, k) then |t.nodes| else m], k);
    }
  }

  lemma HalvesKeepKeys(n: Node, l: Node, r: Node, k: Str)
    requires n.Sized() && n.keynum == M + 1 && RightHalf(n, r)
    requires l == n.(keynum := S + 1, next := l.next)
    ensures InLeaf(n, k) <==> InLeaf(l, k) || InLeaf(r, k)
  {
    if InLeaf(n, k) {
      var i :| 0 <= i < n.keynum && n.key[i] == k;
      if i > S {
        assert r.key[i - S - 1] == k;
      }
    }
  }
}
