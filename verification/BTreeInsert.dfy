/** What storing a key in a leaf does to a B+ tree: the shape, the keys and the leaf list. */
module BTreeInsert {
  import opened Strings
  import opened Order
  import opened Pointers
  import opened BTree
  import opened BTreeSearch

  /** The arrays after shifting one slot open at `i` and storing key `x` and pointer `ap` there. */
  ghost predicate ShiftedIn(n: Node, n': Node, i: nat, x: Str, ap: Ptr)
    requires n.Sized() && i <= n.keynum <= M
  {
    && n'.Sized() && n'.keynum == n.keynum + 1
    && n'.parent == n.parent && n'.leaf == n.leaf && n'.next == n.next
    && (forall k :: 0 <= k < i ==> n'.key[k] == n.key[k] && n'.ptr[k] == n.ptr[k])
    && n'.key[i] == x && n'.ptr[i] == ap
    && (forall k :: i < k <= n.keynum ==> n'.key[k] == n.key[k - 1] && n'.ptr[k] == n.ptr[k - 1])
  }

  /** All that the parent of `c` sees of it. */
  ghost predicate SameFace(t: Arena, t': Arena, h: Hole, h': Hole, c: nat) {
    && c < |t.nodes| == |t.lo| == |t.level| && c < |t'.nodes| == |t'.lo| == |t'.level|
    && (h.Orphan? ==> h.ap < |t.lo|) && (h'.Orphan? ==> h'.ap < |t'.lo|)
    && t.nodes[c].Sized() && t'.nodes[c].Sized()
    && t'.nodes[c].parent == t.nodes[c].parent
    && t'.nodes[c].key[0] == t.nodes[c].key[0]
    && t'.level[c] == t.level[c]
    && SeenLo(t', c, h') == SeenLo(t, c, h)
  }

  /** A node that is itself unchanged and whose children look the same is still in order. */
  lemma NodeOkFrame(t: Arena, t': Arena, n: nat, h: Hole, h': Hole)
    requires n < |t.nodes| == |t.lo| == |t.level| && n < |t'.nodes| == |t'.lo| == |t'.level|
    requires (h.Orphan? ==> h.ap < |t.lo|) && (h'.Orphan? ==> h'.ap < |t'.lo|)
    requires NodeOk(t, n, h)
    requires t'.nodes[n] == t.nodes[n].(parent := t'.nodes[n].parent) && t'.lo[n] == t.lo[n]
    requires t'.level[n] == t.level[n]
    requires forall i :: 0 <= i < t.nodes[n].keynum && t.nodes[n].ptr[i].At? ==>
               SameFace(t, t', h, h', t.nodes[n].ptr[i].id)
    ensures NodeOk(t', n, h')
  {
    if !t.nodes[n].leaf {
      forall i | 0 <= i < t.nodes[n].keynum
        ensures KidOk(t', n, i, h')
      {
        assert KidOk(t, n, i, h);
      }
    }
  }

  // ---- a new key in a leaf ----

  /** The arena after Insert: the slot in node `q`, and `x` as the new largest key of every node in
      `spine`. */
  ghost predicate InsertedNodes(before: seq<Node>, after: seq<Node>, q: nat, i: nat, x: Str, ap: Ptr, spine: set<nat>) {
    && q < |before| == |after| && q !in spine
    && before[q].Sized() && i <= before[q].keynum <= M
    && ShiftedIn(before[q], after[q], i, x, ap)
    && (forall n :: 0 <= n < |before| && n != q && n !in spine ==> after[n] == before[n])
    && (forall n :: 0 <= n < |before| && n in spine ==>
          before[n].Sized() && after[n] == before[n].(key := before[n].key[0 := x]))
  }

  /** The ancestors of leaf `q`, all of which have the same largest key as `q`. */
  ghost predicate SpineOk(t: Arena, root: nat, q: nat, spine: set<nat>) {
    && root < |t.nodes| && q < |t.nodes| && t.nodes[q].Sized() && t.nodes[root].Sized()
    && t.nodes[q].key[0] == t.nodes[root].key[0]
    && (forall n :: n in spine ==>
          && n < |t.nodes| && t.nodes[n].Sized() && !t.nodes[n].leaf && t.nodes[n].key[0] == t.nodes[q].key[0]
          && t.nodes[n].ptr[0].At? && (t.nodes[n].ptr[0].id in spine || t.nodes[n].ptr[0].id == q))
    && (forall n :: n in spine || n == q ==> n == root || (t.nodes[n].parent.At? && t.nodes[n].parent.id in spine))
  }

  /** Where the search leaves a key that is not in the tree. */
  ghost predicate InsertionPoint(t: Arena, root: nat, q: nat, i: nat, s: Str) {
    && Fits(t, root, q, s) && t.nodes[q].leaf && t.nodes[q].keynum <= M
    && SearchResult(t.nodes[q], s, i) && !InLeaf(t.nodes[q], s)
  }

  ghost predicate LeafInsertion(t: Arena, t': Arena, root: nat, q: nat, i: nat, s: Str, spine: set<nat>) {
    && TreeOk(t, root, Closed) && InsertionPoint(t, root, q, i, s)
    && t'.lo == t.lo && t'.level == t.level && InsertedNodes(t.nodes, t'.nodes, q, i, s, Null, spine)
    && (if i == 0 then SpineOk(t, root, q, spine) else spine == {})
  }

  lemma LeafItselfOk(t: Arena, t': Arena, root: nat, q: nat, i: nat, s: Str, spine: set<nat>)
    requires LeafInsertion(t, t', root, q, i, s, spine)
    ensures NodeOk(t', q, Over(q))
  {
    assert NodeOk(t, q, Closed);
    hide Less;
  }

  /** Raising the largest key of an inner node. */
  lemma RaisedKey(n: Node, x: Str, b: Bound)
    requires n.Sized() && Descending(n) && AboveBound(b, n) && Less(n.key[0], x)
    ensures Descending(n.(key := n.key[0 := x])) && AboveBound(b, n.(key := n.key[0 := x]))
  {
    forall j | 0 < j < n.keynum
      ensures Less(n.key[j], x)
    {
      LessTransitive(n.key[j], n.key[0], x);
    }
    if b.Above? {
      LessTransitive(b.k, n.key[0], x);
    }
  }

  /** The leaf that takes a new largest key, and its ancestors. */
  lemma Raised(t: Arena, t': Arena, root: nat, q: nat, s: Str, spine: set<nat>, c: nat)
    requires LeafInsertion(t, t', root, q, 0, s, spine) && (c in spine || c == q)
    ensures c < |t.nodes| == |t'.nodes| && t.nodes[c].Sized() && t'.nodes[c].Sized()
    ensures t.nodes[c].key[0] == t.nodes[root].key[0] && t'.nodes[c].key[0] == s
    ensures t'.nodes[c].parent == t.nodes[c].parent
    ensures c in spine ==>
              && t'.nodes[c] == t.nodes[c].(key := t.nodes[c].key[0 := s]) && !t.nodes[c].leaf
              && t.nodes[c].ptr[0].At? && (t.nodes[c].ptr[0].id in spine || t.nodes[c].ptr[0].id == q)
  {
  }

  lemma Untouched(t: Arena, t': Arena, root: nat, q: nat, i: nat, s: Str, spine: set<nat>, c: nat)
    requires LeafInsertion(t, t', root, q, i, s, spine) && c !in spine && c != q && c < |t.nodes|
    ensures |t'.nodes| == |t.nodes| && t'.nodes[c] == t.nodes[c]
  {
  }

  lemma Measures(t: Arena, t': Arena, root: nat, q: nat, i: nat, s: Str, spine: set<nat>)
    requires LeafInsertion(t, t', root, q, i, s, spine)
    ensures t'.lo == t.lo && t'.level == t.level && q < |t'.nodes| == |t.nodes| == |t.lo| == |t.level|
    ensures root < |t.nodes|
  {
  }

  lemma SpineKidOk(t: Arena, t': Arena, root: nat, q: nat, s: Str, spine: set<nat>, n: nat, i: nat)
    requires LeafInsertion(t, t', root, q, 0, s, spine) && n in spine && n < |t.nodes|
    requires NodeOk(t, n, Closed) && i < t.nodes[n].keynum && KidOk(t, n, i, Closed)
    ensures t'.nodes[n].Sized() && KidOk(t', n, i, Over(q))
  {
    hide LeafInsertion, Less, AboveBound;
    Measures(t, t', root, q, 0, s, spine);
    Raised(t, t', root, q, s, spine, n);
    var c := t.nodes[n].ptr[i].id;
    if c in spine || c == q {
      Raised(t, t', root, q, s, spine, c);
      TotalOrder(t.nodes[n].key[i], t.nodes[n].key[0]);
      assert i == 0;
    } else {
      Untouched(t, t', root, q, 0, s, spine, c);
      assert i != 0;
    }
  }

  lemma SpineNodeOk(t: Arena, t': Arena, root: nat, q: nat, s: Str, spine: set<nat>, n: nat)
    requires LeafInsertion(t, t', root, q, 0, s, spine) && n in spine && n < |t.nodes|
    requires NodeOk(t, n, Closed) && Less(t.nodes[n].key[0], s)
    ensures NodeOk(t', n, Over(q))
  {
    hide LeafInsertion, Less, KidOk, Descending, AboveBound;
    Measures(t, t', root, q, 0, s, spine);
    Raised(t, t', root, q, s, spine, n);
    RaisedKey(t.nodes[n], s, t.lo[n]);
    forall i | 0 <= i < t.nodes[n].keynum
      ensures KidOk(t', n, i, Over(q))
    {
      SpineKidOk(t, t', root, q, s, spine, n, i);
    }
  }

  lemma OtherNodeOk(t: Arena, t': Arena, root: nat, q: nat, i: nat, s: Str, spine: set<nat>, n: nat)
    requires LeafInsertion(t, t', root, q, i, s, spine) && n !in spine && n != q && n < |t.nodes|
    ensures NodeOk(t', n, Over(q))
  {
    hide Less, Leq;
    assert NodeOk(t, n, Closed);
    forall k | 0 <= k < t.nodes[n].keynum && t.nodes[n].ptr[k].At?
      ensures SameFace(t, t', Closed, Over(q), t.nodes[n].ptr[k].id)
    {
      assert KidOk(t, n, k, Closed);
      assert Attached(t, root, root, Closed);
    }
    NodeOkFrame(t, t', n, Closed, Over(q));
  }

  /** Insert at a leaf changes no link. */
  lemma LinksKept(t: Arena, t': Arena, root: nat, q: nat, i: nat, s: Str, spine: set<nat>, n: nat)
    requires LeafInsertion(t, t', root, q, i, s, spine) && n < |t.nodes|
    ensures t'.nodes[n].parent == t.nodes[n].parent && t'.nodes[n].leaf == t.nodes[n].leaf
    ensures !t.nodes[n].leaf ==> t'.nodes[n].ptr == t.nodes[n].ptr && t'.nodes[n].keynum == t.nodes[n].keynum
    ensures t.nodes[n].Sized() ==> t'.nodes[n].Sized()
  {
  }

  lemma LeafInsertionAttached(t: Arena, t': Arena, root: nat, q: nat, i: nat, s: Str, spine: set<nat>, n: nat)
    requires LeafInsertion(t, t', root, q, i, s, spine) && n < |t.nodes|
    ensures n < |t'.nodes| == |t'.lo| && Attached(t', root, n, Over(q))
  {
    hide NodeOk, Filled, InsertionPoint, SpineOk;
    assert Attached(t, root, n, Closed);
    LinksKept(t, t', root, q, i, s, spine, n);
    if n != root {
      var p := t.nodes[n].parent.id;
      LinksKept(t, t', root, q, i, s, spine, p);
      var k :| 0 <= k < t.nodes[p].keynum && t.nodes[p].ptr[k] == At(n);
      hide InsertedNodes;
      assert t'.nodes[p].ptr[k] == At(n);
    }
  }

  lemma NewLargest(t: Arena, t': Arena, root: nat, q: nat, i: nat, s: Str, spine: set<nat>, n: nat)
    requires LeafInsertion(t, t', root, q, i, s, spine) && n in spine
    ensures i == 0 && n < |t.nodes| == |t.lo| == |t.level| && NodeOk(t, n, Closed) && Less(t.nodes[n].key[0], s)
  {
  }

  /** Insert at a leaf, with the upward correction of the largest keys, keeps the whole shape; the
      leaf may now have one key too many. */
  lemma LeafInserted(t: Arena, t': Arena, root: nat, q: nat, i: nat, s: Str, spine: set<nat>)
    requires LeafInsertion(t, t', root, q, i, s, spine)
    ensures TreeOk(t', root, Over(q))
  {
    hide NodeOk, Attached, SpineOk, Fits, SearchResult, InLeaf;
    LeafItselfOk(t, t', root, q, i, s, spine);
    forall n: nat | n < |t'.nodes|
      ensures NodeOk(t', n, Over(q)) && Attached(t', root, n, Over(q)) && Filled(t', root, n, Over(q))
    {
      assert Filled(t, root, n, Closed);
      LeafInsertionAttached(t, t', root, q, i, s, spine, n);
      if n == q {
      } else if n in spine {
        NewLargest(t, t', root, q, i, s, spine, n);
        SpineNodeOk(t, t', root, q, s, spine, n);
      } else {
        OtherNodeOk(t, t', root, q, i, s, spine, n);
      }
    }
  }

  /** A leaf that takes a new largest key is the first of the list. */
  lemma LargestLeafIsFirst(t: Arena, root: nat, data: Ptr, chain: seq<nat>, j: nat)
    requires TreeOk(t, root, Closed) && LeavesOk(t, data, chain) && 0 < j < |chain|
    ensures t.nodes[chain[j]].Sized() && t.nodes[root].Sized()
    ensures t.nodes[chain[j]].key[0] != t.nodes[root].key[0]
  {
    hide Less, Leq;
    assert NodeOk(t, root, Closed);
    var n := chain[j - 1];
    assert NodeOk(t, n, Closed);
    assert LeafOk(t, chain, j - 1);
    MaxAtRoot(t, root, n, Closed);
    LeqLessContradiction(t.nodes[n].key[0], t.nodes[root].key[0]);
  }

  lemma LeafInsertionLeaves(t: Arena, t': Arena, root: nat, q: nat, i: nat, s: Str, spine: set<nat>, data: Ptr,
                            chain: seq<nat>)
    requires LeafInsertion(t, t', root, q, i, s, spine) && LeavesOk(t, data, chain)
    ensures LeavesOk(t', data, chain)
  {
    hide LeafInsertion;
    Measures(t, t', root, q, i, s, spine);
    forall n: nat | n < |t.nodes|
      ensures SameLeafFields(t.nodes[n], t'.nodes[n])
    {
      LeafNextKept(t, t', root, q, i, s, spine, n);
    }
    forall j: nat | 0 < j < |chain|
      ensures t'.nodes[chain[j]].key[0] == t.nodes[chain[j]].key[0]
    {
      LaterLeafKept(t, t', root, q, i, s, spine, data, chain, j);
    }
    LeavesFrame(t, t', data, chain);
  }

  lemma LaterLeafKept(t: Arena, t': Arena, root: nat, q: nat, i: nat, s: Str, spine: set<nat>, data: Ptr,
                      chain: seq<nat>, j: nat)
    requires LeafInsertion(t, t', root, q, i, s, spine) && LeavesOk(t, data, chain) && 0 < j < |chain|
    ensures chain[j] < |t.nodes| == |t'.nodes| && t.nodes[chain[j]].Sized() && t'.nodes[chain[j]].Sized()
    ensures t'.nodes[chain[j]].key[0] == t.nodes[chain[j]].key[0]
  {
    LargestLeafIsFirst(t, root, data, chain, j);
    assert LeafOk(t, chain, j);
    LeafNextKept(t, t', root, q, i, s, spine, chain[j]);
    hide LeafInsertion;
    Measures(t, t', root, q, i, s, spine);
  }

  ghost predicate SameLeafFields(n: Node, n': Node) {
    n'.leaf == n.leaf && n'.next == n.next && (n.Sized() ==> n'.Sized())
  }

  /** Changes that leave every leaf's links and the first keys of all but the first leaf alone. */
  lemma LeavesFrame(t: Arena, t': Arena, data: Ptr, chain: seq<nat>)
    requires LeavesOk(t, data, chain)
    requires |t'.nodes| == |t.nodes| && t'.lo == t.lo
    requires forall n :: 0 <= n < |t.nodes| ==> SameLeafFields(t.nodes[n], t'.nodes[n])
    requires forall j :: 0 < j < |chain| ==>
               t'.nodes[chain[j]].Sized() && t'.nodes[chain[j]].key[0] == t.nodes[chain[j]].key[0]
    ensures LeavesOk(t', data, chain)
  {
    forall j: nat | j < |chain|
      ensures LeafOk(t', chain, j)
    {
      assert j + 1 < |chain| ==> t'.nodes[chain[j + 1]].Sized();
      assert SameLeafFields(t.nodes[chain[j]], t'.nodes[chain[j]]);
      assert LeafOk(t, chain, j);
    }
    forall n | 0 <= n < |t'.nodes| && t'.nodes[n].leaf
      ensures n in chain
    {
      assert SameLeafFields(t.nodes[n], t'.nodes[n]);
    }
  }

  lemma LeafNextKept(t: Arena, t': Arena, root: nat, q: nat, i: nat, s: Str, spine: set<nat>, n: nat)
    requires LeafInsertion(t, t', root, q, i, s, spine) && n < |t.nodes|
    ensures n < |t'.nodes| && root < |t.nodes| && t.nodes[root].Sized() && t'.nodes[n].leaf == t.nodes[n].leaf
    ensures t.nodes[n].Sized() ==> t'.nodes[n].Sized()
    ensures t.nodes[n].leaf && t.nodes[n].Sized() && t.nodes[n].key[0] != t.nodes[root].key[0] ==>
              t'.nodes[n].key[0] == t.nodes[n].key[0]
    ensures t'.nodes[n].next == t.nodes[n].next
  {
  }

  lemma LeafInsertionKeys(t: Arena, t': Arena, root: nat, q: nat, i: nat, s: Str, spine: set<nat>, k: Str)
    requires LeafInsertion(t, t', root, q, i, s, spine)
    ensures Contains(t', k) <==> Contains(t, k) || k == s
  {
    forall m: nat | m < |t.nodes| && m != q
      ensures m < |t'.nodes| && (InLeaf(t'.nodes[m], k) <==> InLeaf(t.nodes[m], k))
    {
      if m in spine {
        NewLargest(t, t', root, q, i, s, spine, m);
        Raised(t, t', root, q, s, spine, m);
      } else {
        Untouched(t, t', root, q, i, s, spine, m);
      }
    }
    assert t.nodes[q].leaf && ShiftedIn(t.nodes[q], t'.nodes[q], i, s, Null);
    Measures(t, t', root, q, i, s, spine);
    hide LeafInsertion, InLeaf;
    ShiftedKeys(t.nodes[q], t'.nodes[q], i, s, Null, k);
  }

  lemma ShiftedKeys(n: Node, n': Node, i: nat, s: Str, ap: Ptr, k: Str)
    requires n.leaf && n.Sized() && i <= n.keynum <= M && ShiftedIn(n, n', i, s, ap)
    ensures InLeaf(n', k) <==> InLeaf(n, k) || k == s
  {
    if InLeaf(n, k) {
      var j :| 0 <= j < n.keynum && n.key[j] == k;
      assert n'.key[if j < i then j else j + 1] == k;
    }
    if InLeaf(n', k) && k != s {
      var j :| 0 <= j < n'.keynum && n'.key[j] == k;
      assert n.key[if j < i then j else j - 1] == k;
    }
    assert n'.key[i] == s;
  }
}
