/** The upward loop of Insert: a new largest key replaces the old one in every ancestor. */
module BTreeSpine {
  import opened Strings
  import opened Order
  import opened Pointers
  import opened BTree
  import opened BTreeSearch
  import opened BTreeInsert

  /** An ancestor of leaf `q` no higher than `top`: it shares the largest key with `q`, and its first
      child is the previous ancestor or `q`. */
  ghost predicate OnSpine(t: Arena, q: nat, spine: set<nat>, top: nat, n: nat) {
    && n < |t.nodes| == |t.level| && q < |t.nodes| && top < |t.nodes| && t.nodes[q].Sized() && t.nodes[n].Sized()
    && !t.nodes[n].leaf && t.nodes[n].key[0] == t.nodes[q].key[0] && t.level[n] <= t.level[top]
    && t.nodes[n].ptr[0].At? && (t.nodes[n].ptr[0].id in spine || t.nodes[n].ptr[0].id == q)
  }

  ghost predicate ParentIn(t: Arena, spine: set<nat>, n: nat) {
    n < |t.nodes| && t.nodes[n].parent.At? && t.nodes[n].parent.id in spine
  }

  /** The ancestors of leaf `q` up to and including `top` have been corrected. */
  ghost predicate SpineUpTo(t: Arena, root: nat, q: nat, spine: set<nat>, top: nat) {
    && root < |t.nodes| && q < |t.nodes| == |t.level| && t.nodes[q].Sized() && t.nodes[root].Sized()
    && t.nodes[q].key[0] == t.nodes[root].key[0] && t.nodes[q].leaf
    && top < |t.nodes| && (top in spine || top == q) && q !in spine
    && (forall n {:trigger OnSpine(t, q, spine, top, n)} :: n in spine ==> OnSpine(t, q, spine, top, n))
    && (forall n {:trigger ParentIn(t, spine, n)} :: (n in spine || n == q) && n != top ==> ParentIn(t, spine, n))
  }

  /** The parent of a node with the largest key of all holds that key first, and the search for it
      answers 1. */
  lemma ParentOfLargest(t: Arena, root: nat, n: nat, p: nat)
    requires TreeOk(t, root, Closed) && n < |t.nodes| && t.nodes[n].Sized() && t.nodes[root].Sized()
    requires t.nodes[n].key[0] == t.nodes[root].key[0] && t.nodes[n].parent == At(p)
    ensures p < |t.nodes| && t.nodes[p].Sized() && Descending(t.nodes[p]) && !t.nodes[p].leaf
    ensures t.nodes[p].key[0] == t.nodes[root].key[0] && t.nodes[p].ptr[0] == At(n)
    ensures n < |t.level| && p < |t.level| && root < |t.level| && t.level[n] < t.level[p] <= t.level[root]
    ensures forall i :: SearchResult(t.nodes[p], t.nodes[root].key[0], i) ==> i == 1
  {
    hide Less, Leq, Filled, SearchResult;
    assert Attached(t, root, n, Closed) && Attached(t, root, root, Closed);
    assert NodeOk(t, p, Closed);
    var k :| 0 <= k < t.nodes[p].keynum && t.nodes[p].ptr[k] == At(n);
    assert KidOk(t, p, k, Closed);
    MaxAtRoot(t, root, p, Closed);
    LargestIsFirst(t.nodes[p], k, t.nodes[root].key[0]);
  }

  lemma LargestIsFirst(n: Node, k: nat, x: Str)
    requires n.Sized() && Descending(n) && k < n.keynum && n.key[k] == x && Leq(n.key[0], x)
    ensures k == 0
    ensures forall i :: SearchResult(n, x, i) ==> i == 1
  {
    if k > 0 {
      LeqLessContradiction(n.key[0], x);
    }
    forall i | SearchResult(n, x, i)
      ensures i == 1
    {
      TotalOrder(x, x);
      if i > 1 {
        LeqLessContradiction(x, n.key[1]);
      }
    }
  }

  lemma SpineStep(t: Arena, root: nat, q: nat, spine: set<nat>, top: nat, p: nat)
    requires TreeOk(t, root, Closed) && SpineUpTo(t, root, q, spine, top) && t.nodes[top].parent == At(p)
    ensures p < |t.nodes| && t.nodes[p].Sized() && Descending(t.nodes[p]) && p !in spine && p != q
    ensures p < |t.level| && root < |t.level| && top < |t.level| && t.level[top] < t.level[p] <= t.level[root]
    ensures forall i :: SearchResult(t.nodes[p], t.nodes[q].key[0], i) ==> i == 1
    ensures SpineUpTo(t, root, q, spine + {p}, p)
  {
    hide TreeOk, SearchResult, Descending;
    assert OnSpine(t, q, spine, top, top) || top == q;
    ParentOfLargest(t, root, top, p);
    assert p in spine ==> OnSpine(t, q, spine, top, p);
    forall n | n in spine + {p}
      ensures OnSpine(t, q, spine + {p}, p, n)
    {
      assert n != p ==> OnSpine(t, q, spine, top, n);
    }
    hide OnSpine;
    forall n | (n in spine + {p} || n == q) && n != p
      ensures ParentIn(t, spine + {p}, n)
    {
      assert n != top ==> ParentIn(t, spine, n);
    }
  }

  lemma SpineComplete(t: Arena, root: nat, q: nat, spine: set<nat>, top: nat)
    requires TreeOk(t, root, Closed) && SpineUpTo(t, root, q, spine, top) && t.nodes[top].parent == Null
    ensures SpineOk(t, root, q, spine)
  {
    hide NodeOk, Filled;
    assert Attached(t, root, top, Closed);
    hide Attached;
    forall n | n in spine || n == q
      ensures n in spine ==> OnSpine(t, q, spine, top, n)
      ensures n == root || ParentIn(t, spine, n)
    {
      assert n != top ==> ParentIn(t, spine, n);
      assert n in spine ==> OnSpine(t, q, spine, top, n);
    }
  }

  /** Storing the new largest key in the next ancestor. */
  lemma RaiseStep(before: seq<Node>, nodes: seq<Node>, q: nat, x: Str, spine: set<nat>, p: nat)
    requires InsertedNodes(before, nodes, q, 0, x, Null, spine) && p < |before| && p != q && p !in spine
    requires before[p].Sized()
    ensures nodes[p] == before[p]
    ensures InsertedNodes(before, nodes[p := nodes[p].(key := nodes[p].key[0 := x])], q, 0, x, Null, spine + {p})
  {
  }

  lemma InsertedFacts(before: seq<Node>, after: seq<Node>, q: nat, x: Str, spine: set<nat>)
    requires InsertedNodes(before, after, q, 0, x, Null, spine)
    ensures |before| == |after| && q < |before| && before[q].Sized() && after[q].Sized()
    ensures after[q].key[1] == before[q].key[0] && after[q].parent == before[q].parent
  {
  }

  lemma SpineFacts(t: Arena, root: nat, q: nat, spine: set<nat>, top: nat)
    requires TreeOk(t, root, Closed) && SpineUpTo(t, root, q, spine, top)
    ensures top < |t.nodes| == |t.level| && root < |t.level| && t.level[top] <= t.level[root]
  {
  }

  lemma ShiftIsInsert(before: seq<Node>, after: seq<Node>, q: nat, i: nat, str: Str, ap: Ptr)
    requires q < |before| == |after| && before[q].Sized() && i <= before[q].keynum <= M
    requires ShiftedIn(before[q], after[q], i, str, ap)
    requires forall n :: 0 <= n < |before| && n != q ==> after[n] == before[n]
    ensures InsertedNodes(before, after, q, i, str, ap, {})
  {
  }

  /** A key that goes to the front of its leaf is the largest of all. */
  lemma SpineStarts(t: Arena, root: nat, q: nat, i: nat, str: Str)
    requires TreeOk(t, root, Closed) && InsertionPoint(t, root, q, i, str)
    ensures q < |t.nodes| && t.nodes[q].Sized() && i <= t.nodes[q].keynum <= M
    ensures i == 0 ==> SpineUpTo(t, root, q, {}, q)
  {
    hide NodeOk, Attached, Filled;
    if i == 0 {
      TotalOrder(t.nodes[q].key[0], str);
    }
  }

  lemma RootLeafSpine(t: Arena, root: nat, q: nat, i: nat, str: Str)
    requires TreeOk(t, root, Closed) && InsertionPoint(t, root, q, i, str)
    ensures i == 0 && t.nodes[q].parent == Null ==> SpineOk(t, root, q, {})
  {
    hide NodeOk, Filled;
    assert Attached(t, root, q, Closed);
    SpineStarts(t, root, q, i, str);
  }

  // ---- what the callers of Insert and split need to know ----

  /** Search has found the place for the right half `ap` of `q` in the parent of `q`. */
  ghost predicate ParentFound(t: Arena, q: nat, ap: nat, p: nat, i: nat) {
    && q < |t.nodes| && ap < |t.nodes| && p < |t.nodes| && t.nodes[q].parent == At(p)
    && t.nodes[ap].Sized() && t.nodes[p].Sized() && SearchResult(t.nodes[p], t.nodes[ap].key[0], i)
  }

  /** The children moved by the first `i` rounds of the last loop of split. */
  ghost predicate MovedUpTo(n: Node, c: nat, i: nat)
    requires n.Sized() && i <= M - S
  {
    exists k :: S < k <= S + i && n.ptr[k] == At(c)
  }

  lemma MovedOneMore(n: Node, c: nat, i: nat)
    requires n.Sized() && i < M - S
    ensures MovedUpTo(n, c, i + 1) <==> MovedUpTo(n, c, i) || n.ptr[i + S + 1] == At(c)
  {
  }
}
