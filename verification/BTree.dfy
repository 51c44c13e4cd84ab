/** BPlusTree.h: the node arena, and what a well-formed B+ tree is. Keys are in descending order, an
    inner node's key is the largest key below its child, and the leaves form one list. */
module BTree {
  import opened Strings
  import opened Order
  import opened Pointers

  const M := 8

  /** Half of M, rounded up: a split leaves S + 1 keys to the left and M - S to the right. */
  const S := (M + 1) / 2

  datatype Node = Node(keynum: nat, parent: Ptr, key: seq<Str>, ptr: seq<Ptr>, leaf: bool, next: Ptr) {
    /** The arrays hold M + 1 slots; the first keynum of them are in use. */
    ghost predicate Sized() {
      |key| == |ptr| == M + 1 && 1 <= keynum <= M + 1
    }
  }

  /** All keys below a node are greater than its bound. */
  datatype Bound = Bottom | Above(k: Str)

  /** The arena with its ghost measures: a lower bound and the height of every node. */
  datatype Arena = Arena(nodes: seq<Node>, lo: seq<Bound>, level: seq<nat>)

  /** What is unfinished while an insertion climbs: a node with one key too many, or the right half
      `ap` of the split node `q`, not yet entered in the parent. */
  datatype Hole = Closed | Over(n: nat) | Orphan(q: nat, ap: nat)

  ghost predicate Descending(n: Node)
    requires n.Sized()
  {
    forall i, j :: 0 <= i < j < n.keynum ==> Less(n.key[j], n.key[i])
  }

  ghost predicate AboveBound(b: Bound, n: Node)
    requires n.Sized()
  {
    b.Above? ==> forall i :: 0 <= i < n.keynum ==> Less(b.k, n.key[i])
  }

  /** The lower bound of a node as its parent's keys imply it. */
  ghost function SeenLo(t: Arena, c: nat, h: Hole): Bound
    requires c < |t.lo| && (h.Orphan? ==> h.ap < |t.lo|)
  {
    if h.Orphan? && c == h.q then t.lo[h.ap] else t.lo[c]
  }

  /** The lower bound of the `i`-th child: the next key, or the node's own bound. */
  ghost function NextBound(t: Arena, n: nat, i: nat): Bound
    requires n < |t.nodes| == |t.lo| && t.nodes[n].Sized() && i < t.nodes[n].keynum
  {
    if i + 1 < t.nodes[n].keynum then Above(t.nodes[n].key[i + 1]) else t.lo[n]
  }

  /** The `i`-th child of `n`: linked back, one level down, its largest key the key of the parent. */
  ghost predicate KidOk(t: Arena, n: nat, i: nat, h: Hole)
    requires n < |t.nodes| == |t.lo| == |t.level| && t.nodes[n].Sized() && i < t.nodes[n].keynum
    requires h.Orphan? ==> h.ap < |t.lo|
  {
    && t.nodes[n].ptr[i].At?
    && var c := t.nodes[n].ptr[i].id;
    && c < |t.nodes| && t.nodes[c].Sized()
    && t.nodes[c].parent == At(n)
    && t.nodes[c].key[0] == t.nodes[n].key[i]
    && t.level[c] + 1 == t.level[n]
    && SeenLo(t, c, h) == NextBound(t, n, i)
  }

  ghost predicate NodeOk(t: Arena, n: nat, h: Hole)
    requires n < |t.nodes| == |t.lo| == |t.level|
    requires h.Orphan? ==> h.ap < |t.lo|
  {
    && t.nodes[n].Sized()
    && Descending(t.nodes[n])
    && AboveBound(t.lo[n], t.nodes[n])
    && (t.nodes[n].leaf <==> t.level[n] == 0)
    && (t.nodes[n].leaf ==> forall i :: 0 <= i < t.nodes[n].keynum ==> t.nodes[n].ptr[i] == Null)
    && (!t.nodes[n].leaf ==> forall i {:trigger KidOk(t, n, i, h)} :: 0 <= i < t.nodes[n].keynum ==> KidOk(t, n, i, h))
  }

  /** How many keys a node has: only the node in the hole may exceed M. */
  ghost predicate Filled(t: Arena, root: nat, n: nat, h: Hole)
    requires n < |t.nodes|
  {
    && t.nodes[n].keynum <= (if h == Over(n) then M + 1 else M)
    && (n != root ==> t.nodes[n].keynum >= M - S)
    && (n == root && !t.nodes[n].leaf ==> t.nodes[n].keynum >= 2)
  }

  /** A child of its parent, or the root. */
  ghost predicate Attached(t: Arena, root: nat, n: nat, h: Hole)
    requires n < |t.nodes| == |t.lo| && (h.Orphan? ==> h.ap < |t.lo|)
  {
    if n == root then t.nodes[n].parent == Null && SeenLo(t, n, h) == Bottom
    else if h.Orphan? && n == h.ap then h.q < |t.nodes| && t.nodes[n].parent == t.nodes[h.q].parent
    else
      && t.nodes[n].parent.At?
      && var p := t.nodes[n].parent.id;
      && p < |t.nodes| && t.nodes[p].Sized() && !t.nodes[p].leaf
      && exists i :: 0 <= i < t.nodes[p].keynum && t.nodes[p].ptr[i] == At(n)
  }

  ghost predicate TreeOk(t: Arena, root: nat, h: Hole) {
    && root < |t.nodes| == |t.lo| == |t.level|
    && (h.Orphan? ==> OrphanOk(t, root, h))
    && (forall n {:trigger NodeOk(t, n, h)} :: 0 <= n < |t.nodes| ==> NodeOk(t, n, h))
    && (forall n {:trigger Attached(t, root, n, h)} :: 0 <= n < |t.nodes| ==> Attached(t, root, n, h))
    && (forall n {:trigger Filled(t, root, n, h)} :: 0 <= n < |t.nodes| ==> Filled(t, root, n, h))
    && (forall n :: 0 <= n < |t.nodes| ==> t.level[n] <= t.level[root])
  }

  /** The two halves of a split: the left one is bounded by the first key of the right one. */
  ghost predicate OrphanOk(t: Arena, root: nat, h: Hole)
    requires h.Orphan? && |t.nodes| == |t.lo| == |t.level|
  {
    && h.q < |t.nodes| && h.ap < |t.nodes| && h.q != h.ap && h.ap != root
    && t.nodes[h.ap].Sized() && t.lo[h.q] == Above(t.nodes[h.ap].key[0])
    && t.level[h.ap] == t.level[h.q] && t.nodes[h.q].keynum >= M - S
  }

  // ---- the leaves ----

  ghost function LeafBound(t: Arena, chain: seq<nat>, j: nat): Bound
    requires j + 1 < |chain| ==> chain[j + 1] < |t.nodes| && t.nodes[chain[j + 1]].Sized()
  {
    if j + 1 < |chain| then Above(t.nodes[chain[j + 1]].key[0]) else Bottom
  }

  /** The `j`-th leaf: linked to the next one and bounded by it. */
  ghost predicate LeafOk(t: Arena, chain: seq<nat>, j: nat)
    requires j < |chain| && |t.nodes| == |t.lo|
  {
    && chain[j] < |t.nodes| && t.nodes[chain[j]].Sized()
    && (j + 1 < |chain| ==> chain[j + 1] < |t.nodes| && t.nodes[chain[j + 1]].Sized())
    && t.nodes[chain[j]].leaf
    && t.nodes[chain[j]].next == PtrAt(chain, j + 1)
    && t.lo[chain[j]] == LeafBound(t, chain, j)
  }

  /** The leaf list: it starts at `data`, follows `next`, and each leaf is bounded by the first key
      of the following one. */
  ghost predicate LeavesOk(t: Arena, data: Ptr, chain: seq<nat>) {
    && |t.nodes| == |t.lo|
    && data == PtrAt(chain, 0) && Distinct(chain)
    && (forall j :: 0 <= j < |chain| ==> chain[j] < |t.nodes| && t.nodes[chain[j]].Sized())
    && (forall j {:trigger LeafOk(t, chain, j)} :: 0 <= j < |chain| ==> LeafOk(t, chain, j))
    && (forall n :: 0 <= n < |t.nodes| && t.nodes[n].leaf ==> n in chain)
  }

  /** Key `k` is stored in leaf `n`. */
  ghost predicate InLeaf(n: Node, k: Str) {
    n.leaf && n.Sized() && exists i :: 0 <= i < n.keynum && n.key[i] == k
  }

  /** The set of keys the tree stands for. */
  ghost predicate Contains(t: Arena, k: Str) {
    exists n :: 0 <= n < |t.nodes| && InLeaf(t.nodes[n], k)
  }

  // ---- the largest key is at the root ----

  ghost predicate Leq(a: Str, b: Str) {
    a == b || Less(a, b)
  }

  lemma LeqTransitive(a: Str, b: Str, c: Str)
    requires Leq(a, b) && Leq(b, c)
    ensures Leq(a, c)
  {
    LessLeqTransitive(a, b, c);
  }

  lemma {:induction false} MaxAtRoot(t: Arena, root: nat, n: nat, h: Hole)
    requires TreeOk(t, root, h) && !h.Orphan? && n < |t.nodes|
    ensures t.nodes[n].Sized() && t.nodes[root].Sized()
    ensures Leq(t.nodes[n].key[0], t.nodes[root].key[0])
    decreases t.level[root] - t.level[n]
  {
    hide Less;
    assert NodeOk(t, n, h);
    assert Attached(t, root, n, h);
    if n != root {
      var p := t.nodes[n].parent.id;
      assert NodeOk(t, p, h);
      var i :| 0 <= i < t.nodes[p].keynum && t.nodes[p].ptr[i] == At(n);
      assert KidOk(t, p, i, h);
      MaxAtRoot(t, root, p, h);
      LeqTransitive(t.nodes[n].key[0], t.nodes[p].key[0], t.nodes[root].key[0]);
    }
  }
}
