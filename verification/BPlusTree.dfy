/** BPlusTree.h: searching and inserting keys in a B+ tree of order 8. */
module BPlusTree {
  import opened Strings
  import opened Order
  import opened Pointers
  import opened BTree
  import opened BTreeSearch
  import opened BTreeInsert
  import opened BTreeSpine
  import opened BTreeHoles
  import opened BTreeSize
  import BTreeSplit
  import BTreeAttach

  class BPlus {
    var nodes: seq<Node>
    var root: Ptr
    var data: Ptr
    ghost var lo: seq<Bound>
    ghost var level: seq<nat>
    ghost var chain: seq<nat>

    ghost function T(): Arena
      reads `nodes, `lo, `level
    {
      Arena(nodes, lo, level)
    }

    /** Well-formed up to a hole while an insertion is under way. */
    ghost predicate Shape(h: Hole)
      reads this
    {
      root.At? && data.At? && TreeOk(T(), root.id, h) && LeavesOk(T(), data, chain)
    }

    ghost predicate Valid()
      reads this
    {
      if root == Null then data == Null && nodes == [] && lo == [] && level == [] && chain == []
      else Shape(Closed)
    }

    ghost predicate Has(k: Str)
      reads `nodes, `lo, `level
    {
      Contains(T(), k)
    }

    constructor ()
      ensures Valid() && forall k :: !Has(k)
    {
      nodes, root, data := [], Null, Null;
      lo, level, chain := [], [], [];
    }

    /** Search: the number of keys of node `p` that are at least `str`. */
    method Search(p: nat, str: Str) returns (i: nat, steps: nat)
      requires p < |nodes| && nodes[p].Sized() && Descending(nodes[p])
      ensures SearchResult(nodes[p], str, i) && steps == i <= nodes[p].keynum
    {
      hide Less;
      i := 0;
      while i < nodes[p].keynum && StringCmp(str, nodes[p].key[i]) <= 0
        invariant i <= nodes[p].keynum
        invariant forall k :: 0 <= k < i ==> Leq(str, nodes[p].key[k])
      {
        TotalOrder(str, nodes[p].key[i]);
        i := i + 1;
      }
      if i < nodes[p].keynum {
        TotalOrder(str, nodes[p].key[i]);
        SmallerKeysFollow(nodes[p], str, i);
      }
      steps := i;
    }

    /** SearchB_Tree, and bupt_searchTree with its count of comparisons: the tag tells whether the
        key is in the tree; if not, the answer is where it belongs. The nodes visited are those of `way`,
        one on each level, and every one costs 1 and its keys not below the string. */
    method SearchTree(str: Str) returns (pt: Ptr, i: nat, found: bool, cmps: nat, ghost way: seq<nat>)
      requires Valid()
      ensures found <==> Has(str)
      ensures found ==>
                && pt.At? && pt.id < |nodes| && nodes[pt.id].leaf && nodes[pt.id].Sized()
                && i < nodes[pt.id].keynum && nodes[pt.id].key[i] == str
      ensures !found ==> if root == Null then pt == Null else pt.At? && InsertionPoint(T(), root.id, pt.id, i, str)
      ensures if root == Null then cmps == 0 else pt.At? && Arrived(str, pt.id, way, cmps)
      ensures cmps <= if root == Null then 0 else (level[root.id] + 1) * (M + 1)
      ensures root != Null ==> |LeafKeys(T(), chain, 0)| >= FewestKeys(level[root.id])
    {
      EmptyHasNothing(str);
      hide Less, Leq, SearchResult, TreeOk, LeavesOk, NodeOk, FewestKeys, LeafKeys, Visiting, Descent, DescentCost,
           Contains, InsertionPoint, OnTheWay, Hit, Arrived;
      var p := root;
      found, way := false, [];
      i, cmps := 0, 0;
      if root != Null {
        SetOut(str);
        way := [root.id];
      }
      while p != Null && !found
        invariant p == Null <==> root == Null
        invariant p != Null ==> p.id < |nodes| == |level| && OnTheWay(str, p.id)
        invariant p != Null ==> !found ==> Visiting(T(), root.id, str, way, p.id, cmps)
        invariant found ==> p != Null && Hit(str, p.id, i) && Arrived(str, p.id, way, cmps)
        invariant p == Null ==> cmps == 0
        decreases if p == Null then 0 else level[p.id], !found
      {
        NodeFacts(p.id);
        ghost var paid := cmps;
        var steps;
        i, steps := Search(p.id, str);
        cmps := cmps + 1 + steps;
        if nodes[p.id].leaf {
          AtLeaf(p.id, str, i, way, paid);
          if i > 0 && StringCmp(str, nodes[p.id].key[i - 1]) == 0 {
            found := true;
            i := i - 1;
          } else {
            break;
          }
        } else {
          GoDown(p.id, str, i, way, paid);
          if i > 0 {
            i := i - 1;
          }
          p := nodes[p.id].ptr[i];
          way := way + [p.id];
        }
      }
      pt := p;
      if pt != Null {
        CostBound(str, pt.id, way, cmps);
      }
      if found {
        HitIs(str, pt.id, i);
      }
    }

    lemma EmptyHasNothing(str: Str)
      requires Valid()
      ensures root == Null ==> !Has(str)
    {
    }

    lemma SetOut(str: Str)
      requires root != Null && Valid()
      ensures root.id < |nodes| == |level| && OnTheWay(str, root.id)
      ensures Visiting(T(), root.id, str, [root.id], root.id, 0)
    {
      RootFits(T(), root.id, str);
      NodeFacts(root.id);
      VisitStarts(T(), root.id, str);
    }

    lemma HitIs(str: Str, p: nat, i: nat)
      requires Hit(str, p, i)
      ensures Has(str) && p < |nodes| && nodes[p].leaf && nodes[p].Sized()
      ensures i < nodes[p].keynum && nodes[p].key[i] == str
    {
    }

    ghost predicate OnTheWay(str: Str, p: nat)
      reads this
    {
      root != Null && Fits(T(), root.id, p, str)
    }

    ghost predicate Hit(str: Str, p: nat, i: nat)
      reads this
    {
      Has(str) && p < |nodes| && nodes[p].leaf && nodes[p].Sized() && i < nodes[p].keynum && nodes[p].key[i] == str
    }

    /** The search has ended at leaf `p`, along the nodes of `way`, one on each level, and has cost 1 for
        every one of them and for every key in it that is not below the string. */
    ghost predicate Arrived(str: Str, p: nat, way: seq<nat>, cmps: nat)
      reads this
    {
      && root != Null && root.id < |level| && Descent(T(), root.id, str, way) && p == way[|way| - 1]
      && |way| == level[root.id] + 1 && cmps == DescentCost(T(), str, way)
    }

    /** The cost is at most nine for each level, and a tree of level h holds at least FewestKeys(h) keys. */
    lemma CostBound(str: Str, p: nat, way: seq<nat>, cmps: nat)
      requires Valid() && Arrived(str, p, way, cmps)
      ensures cmps <= (level[root.id] + 1) * (M + 1)
      ensures |LeafKeys(T(), chain, 0)| >= FewestKeys(level[root.id])
    {
      KeysAtLeast(T(), root.id, data, chain);
      forall i | 0 <= i < |way|
        ensures nodes[way[i]].keynum <= M
      {
        NodeFacts(way[i]);
      }
      hide TreeOk, LeavesOk, LeafKeys, FewestKeys;
      DescentBound(T(), str, way);
    }

    /** One level further down. */
    lemma GoDown(p: nat, str: Str, i: nat, way: seq<nat>, paid: nat)
      requires root != Null && Valid() && p < |nodes| && OnTheWay(str, p) && !nodes[p].leaf
      requires nodes[p].Sized() && SearchResult(nodes[p], str, i) && i <= nodes[p].keynum <= M
      requires Visiting(T(), root.id, str, way, p, paid)
      ensures var c := nodes[p].ptr[if i > 0 then i - 1 else 0];
              && c.At? && c.id < |nodes| == |level| && OnTheWay(str, c.id) && level[c.id] < level[p]
              && Visiting(T(), root.id, str, way + [c.id], c.id, paid + 1 + i)
    {
      NodeFacts(p);
      hide Fits, TreeOk, LeavesOk, SearchResult, Visiting;
      ChildFits(T(), root.id, p, str, i);
      VisitNext(T(), root.id, str, way, p, paid, i, nodes[p].ptr[if i > 0 then i - 1 else 0].id);
    }

    /** The slot before the place found decides whether the leaf, and so the tree, has the key. */
    lemma AtLeaf(p: nat, str: Str, i: nat, way: seq<nat>, paid: nat)
      requires root != Null && Valid() && p < |nodes| && OnTheWay(str, p) && nodes[p].leaf
      requires nodes[p].Sized() && SearchResult(nodes[p], str, i) && i <= nodes[p].keynum <= M
      requires Visiting(T(), root.id, str, way, p, paid)
      ensures Arrived(str, p, way, paid + 1 + i)
      ensures Has(str) <==> i > 0 && StringCmp(str, nodes[p].key[i - 1]) == 0
      ensures Has(str) ==> Hit(str, p, i - 1)
      ensures !Has(str) ==> InsertionPoint(T(), root.id, p, i, str)
    {
      hide Less, Leq, Fits, TreeOk, LeavesOk, Visiting;
      NodeFacts(p);
      VisitEnds(T(), root.id, str, way, p, paid, i);
      LeafDecides(T(), root.id, data, chain, p, str);
      LeafHit(nodes[p], str, i);
      if i > 0 {
        TotalOrder(str, nodes[p].key[i - 1]);
      }
    }

    lemma NodeFacts(p: nat)
      requires root != Null && Valid() && p < |nodes|
      ensures p < |level| == |nodes| && root.id < |level| && nodes[p].Sized() && Descending(nodes[p])
      ensures nodes[p].keynum <= M
      ensures (nodes[p].leaf <==> level[p] == 0) && level[p] <= level[root.id]
    {
      assert NodeOk(T(), p, Closed) && Filled(T(), root.id, p, Closed);
    }

    /** The for loop of Insert: open the slot `i` of node `q` and fill it. */
    method ShiftIn(q: nat, i: nat, str: Str, ap: Ptr)
      requires q < |nodes| && nodes[q].Sized() && i <= nodes[q].keynum <= M
      modifies this`nodes
      ensures |nodes| == old(|nodes|) && ShiftedIn(old(nodes[q]), nodes[q], i, str, ap)
      ensures forall n :: 0 <= n < |nodes| && n != q ==> nodes[n] == old(nodes[n])
    {
      ghost var n := nodes[q];
      var j := nodes[q].keynum;
      while j > i
        invariant i <= j <= n.keynum && |nodes| == old(|nodes|)
        invariant nodes[q] == n.(key := nodes[q].key, ptr := nodes[q].ptr) && nodes[q].Sized()
        invariant forall k :: 0 <= k < |nodes| && k != q ==> nodes[k] == old(nodes[k])
        invariant forall k :: 0 <= k < j ==> nodes[q].key[k] == n.key[k] && nodes[q].ptr[k] == n.ptr[k]
        invariant forall k :: j < k <= n.keynum ==> nodes[q].key[k] == n.key[k - 1] && nodes[q].ptr[k] == n.ptr[k - 1]
      {
        nodes := nodes[q := nodes[q].(key := nodes[q].key[j := nodes[q].key[j - 1]],
                                      ptr := nodes[q].ptr[j := nodes[q].ptr[j - 1]])];
        j := j - 1;
      }
      nodes := nodes[q := nodes[q].(key := nodes[q].key[i := str], ptr := nodes[q].ptr[i := ap],
                                    keynum := nodes[q].keynum + 1)];
    }

    /** The while loop of Insert, for a leaf that has just got a new largest key. */
    method RaiseAncestors(q: nat, str: Str, ghost t: Arena) returns (ghost spine: set<nat>)
      requires root.At? && TreeOk(t, root.id, Closed) && SpineUpTo(t, root.id, q, {}, q)
      requires InsertedNodes(t.nodes, nodes, q, 0, str, Null, {})
      modifies this`nodes
      ensures SpineOk(t, root.id, q, spine) && InsertedNodes(t.nodes, nodes, q, 0, str, Null, spine)
      ensures |nodes| == |t.nodes|
    {
      hide TreeOk, SpineUpTo, InsertedNodes, ShiftedIn, Less, SearchResult, Descending, SpineOk;
      spine := {};
      InsertedFacts(t.nodes, nodes, q, str, spine);
      ghost var top: nat := q;
      var p := nodes[q].parent;
      var i: nat := 0;
      SpineFacts(t, root.id, q, spine, top);
      while i == 0 && p != Null
        invariant i == 0 && top < |t.nodes| && p == t.nodes[top].parent
        invariant |nodes| == |t.nodes| && q < |nodes| && nodes[q].Sized() && t.nodes[q].Sized()
        invariant nodes[q].key[1] == t.nodes[q].key[0]
        invariant SpineUpTo(t, root.id, q, spine, top) && InsertedNodes(t.nodes, nodes, q, 0, str, Null, spine)
        invariant top < |t.level| && root.id < |t.level| && t.level[top] <= t.level[root.id]
        decreases t.level[root.id] - t.level[top]
      {
        SpineStep(t, root.id, q, spine, top, p.id);
        RaiseStep(t.nodes, nodes, q, str, spine, p.id);
        var found, _ := Search(p.id, nodes[q].key[1]);
        i := found - 1;
        nodes := nodes[p.id := nodes[p.id].(key := nodes[p.id].key[i := str])];
        spine := spine + {p.id};
        top := p.id;
        p := nodes[p.id].parent;
      }
      SpineComplete(t, root.id, q, spine, top);
    }

    /** Insert: a new slot, and the correction of the ancestors when the largest key has changed. */
    method Insert(q: nat, i: nat, str: Str, ap: Ptr) returns (ghost spine: set<nat>)
      requires q < |nodes| && nodes[q].Sized() && i <= nodes[q].keynum <= M
      requires i == 0 && nodes[q].parent != Null ==>
                 ap == Null && root.At? && TreeOk(T(), root.id, Closed) && SpineUpTo(T(), root.id, q, {}, q)
      modifies this`nodes
      ensures |nodes| == old(|nodes|) && InsertedNodes(old(nodes), nodes, q, i, str, ap, spine)
      ensures if i == 0 && old(nodes[q].parent) != Null then SpineOk(old(T()), root.id, q, spine) else spine == {}
    {
      hide TreeOk, SpineUpTo, SpineOk, ShiftedIn;
      ghost var t := T();
      ShiftIn(q, i, str, ap);
      hide InsertedNodes;
      ShiftIsInsert(t.nodes, nodes, q, i, str, ap);
      spine := {};
      if i == 0 && nodes[q].parent != Null {
        spine := RaiseAncestors(q, str, t);
      }
    }

    /** One round of the climb: a new key is stored in its leaf, or the right half `ap` of the split
        node `s` in the parent. */
    method InsertInto(q: nat, i: nat, x: Str, ap: Ptr, ghost s: nat)
      requires root != Null
      requires ap == Null ==> Valid() && InsertionPoint(T(), root.id, q, i, x)
      requires ap != Null ==> Shape(Orphan(s, ap.id)) && ParentFound(T(), s, ap.id, q, i) && x == nodes[ap.id].key[0]
      modifies this`nodes
      ensures Shape(Over(q)) && q < |nodes| == old(|nodes|)
      ensures forall k :: Has(k) <==> old(Has(k)) || (ap == Null && k == x)
    {
      ghost var t := T();
      hide TreeOk, LeavesOk, SpineOk, InsertedNodes, Contains, SpineUpTo, SearchResult, InsertionPoint;
      if ap == Null {
        SpineStarts(t, root.id, q, i, x);
      } else {
        BTreeAttach.ParentHasRoom(t, root.id, s, ap.id, q, i);
      }
      ghost var spine := Insert(q, i, x, ap);
      if ap == Null {
        RootLeafSpine(t, root.id, q, i, x);
        LeafInserted(t, T(), root.id, q, i, x, spine);
        LeafInsertionLeaves(t, T(), root.id, q, i, x, spine, data, chain);
        forall k
          ensures Has(k) <==> Contains(t, k) || k == x
        {
          LeafInsertionKeys(t, T(), root.id, q, i, x, spine, k);
        }
      } else {
        BTreeAttach.SiblingAttached(t, T(), root.id, s, ap.id, q, i);
        BTreeAttach.AttachKeepsLeaves(t, T(), root.id, s, ap.id, q, i, data, chain);
      }
    }

    /** split: the upper slots of `q` go to a new node, whose children learn their new parent. */
    method Split(q: nat) returns (ap: nat)
      requires q < |nodes| && nodes[q].Sized() && nodes[q].keynum == M + 1
      requires forall k :: 0 <= k <= M && nodes[q].ptr[k].At? ==>
                 nodes[q].ptr[k].id < |nodes| && nodes[q].ptr[k].id != q
      modifies this`nodes
      ensures ap == old(|nodes|) && BTreeSplit.SplitNodes(old(nodes), nodes, q)
    {
      ghost var before := nodes;
      ghost var n := nodes[q];
      ap := |nodes|;
      var key := seq(M + 1, _ => []);
      var ptr := seq(M + 1, _ => Null);
      var next := nodes[q].next;
      if nodes[q].leaf {
        nodes := nodes[q := nodes[q].(next := At(ap))];
      }
      var i := S + 1;
      while i <= M
        invariant S + 1 <= i <= M + 1 && |key| == |ptr| == M + 1
        invariant forall k :: 0 <= k < i - S - 1 ==> key[k] == n.key[k + S + 1] && ptr[k] == n.ptr[k + S + 1]
      {
        key := key[i - S - 1 := nodes[q].key[i]];
        ptr := ptr[i - S - 1 := nodes[q].ptr[i]];
        i := i + 1;
      }
      nodes := nodes[q := nodes[q].(keynum := S + 1)];
      nodes := nodes + [Node(M - S, nodes[q].parent, key, ptr, nodes[q].leaf, if nodes[q].leaf then next else Null)];
      ghost var r := nodes[ap];
      i := 0;
      while i < M - S
        invariant 0 <= i <= M - S && |nodes| == |before| + 1 && nodes[ap] == r
        invariant nodes[q] == n.(keynum := S + 1, next := if n.leaf then At(ap) else n.next)
        invariant forall c :: 0 <= c < |before| && c != q ==>
                    nodes[c] == before[c].(parent := if MovedUpTo(n, c, i) then At(ap) else before[c].parent)
      {
        if ptr[i] != Null {
          nodes := nodes[ptr[i].id := nodes[ptr[i].id].(parent := At(ap))];
        }
        assert n.ptr[i + S + 1] == ptr[i];
        forall c | 0 <= c < |before| && c != q
          ensures MovedUpTo(n, c, i + 1) <==> MovedUpTo(n, c, i) || ptr[i] == At(c)
        {
          MovedOneMore(n, c, i);
        }
        i := i + 1;
      }
      forall c: nat | c < |before|
        ensures BTreeSplit.Moved(n, c) <==> MovedUpTo(n, c, M - S)
      {
      }
    }

    /** A node with one key too many is split; its right half is not yet in the parent. */
    method SplitFull(q: nat) returns (ap: nat)
      requires Shape(Over(q)) && q < |nodes| && nodes[q].keynum == M + 1
      modifies this`nodes, this`lo, this`level, this`chain
      ensures ap == old(|nodes|) && |nodes| == ap + 1 && Shape(Orphan(q, ap)) && level == old(level) + [old(level[q])]
      ensures nodes[q].Sized() && nodes[ap].Sized() && nodes[q].key[S + 1] == nodes[ap].key[0]
      ensures forall k :: Has(k) <==> old(Has(k))
    {
      ghost var t := T();
      hide TreeOk, LeavesOk, Contains;
      OverFacts(t, root.id, q);
      ap := Split(q);
      lo := lo[q := Above(t.nodes[q].key[S + 1])] + [lo[q]];
      level := level + [level[q]];
      BTreeSplit.NodeSplit(t, T(), root.id, q);
      if t.nodes[q].leaf {
        ghost var j := ChainIndex(t, data, chain, q);
        BTreeSplit.SplitKeepsLeaves(t, T(), root.id, q, data, chain, j);
        chain := BTreeSplit.SplitChain(chain, j, ap);
      } else {
        BTreeSplit.InnerSplitKeepsLeaves(t, T(), root.id, q, data, chain);
      }
      forall k
        ensures Has(k) <==> Contains(t, k)
      {
        BTreeSplit.SplitKeepsKeys(t, T(), root.id, q, k);
      }
    }

    /** NewRoot, when a root `root` with right half `ap` exists: the old root becomes the first child of
        the new node `p`. `t` is the tree before `p` was made. */
    method EnterOldRoot(p: nat, ap: nat, ghost t: Arena)
      requires root != Null && TreeOk(t, root.id, Orphan(root.id, ap)) && p == |t.nodes| && |nodes| == p + 1
      requires ap < p && t.nodes[ap].Sized()
      requires nodes[p].Sized() && nodes[p].keynum == 1 && nodes[p].parent == Null && !nodes[p].leaf
      requires nodes[p].key[0] == t.nodes[ap].key[0] && nodes[p].ptr[0] == At(ap)
      requires forall n: nat :: n < p ==>
                 nodes[n] == t.nodes[n].(parent := if n == ap then At(p) else t.nodes[n].parent)
      modifies this`nodes
      ensures |nodes| == p + 1 && root.id < |t.level|
      ensures BTreeAttach.NewRootStep(t, Arena(nodes[p := nodes[p].(leaf := false)], t.lo + [Bottom],
                                               t.level + [t.level[root.id] + 1]), root.id, ap)
    {
      hide TreeOk, InsertedNodes, BTreeAttach.NewRootStep;
      OrphanFacts(t, root.id, root.id, ap);
      ghost var single := nodes;
      var _ := Insert(p, 0, nodes[root.id].key[0], root);
      BTreeAttach.TwoChildren(t, single, nodes, root.id, ap);
      nodes := nodes[root.id := nodes[root.id].(parent := At(p))];
    }

    /** NewRoot: the first key makes the tree a single leaf; later, a split root gets a new root
        above its two halves. */
    method NewRoot(x: Str, ap: Ptr)
      requires root == Null ==> ap == Null && Valid()
      requires root != Null ==> ap != Null && Shape(Orphan(root.id, ap.id))
      requires root != Null ==> ap.id < |nodes| && nodes[ap.id].Sized() && x == nodes[ap.id].key[0]
      modifies this
      ensures Valid() && root == At(old(|nodes|))
      ensures forall k :: Has(k) <==> old(Has(k)) || (ap == Null && k == x)
    {
      ghost var t := T();
      hide TreeOk, LeavesOk, Contains, InsertedNodes, BTreeAttach.NewRootStep;
      var p := |nodes|;
      var key := seq(M + 1, _ => []);
      var ptr := seq(M + 1, _ => Null);
      nodes := nodes + [Node(1, Null, key[0 := x], ptr[0 := ap], false, Null)];
      if ap != Null {
        nodes := nodes[ap.id := nodes[ap.id].(parent := At(p))];
      }
      if root != Null {
        EnterOldRoot(p, ap.id, t);
      }
      ghost var was := root;
      root := At(p);
      if data == Null {
        nodes := nodes[p := nodes[p].(leaf := true, next := Null)];
        data := At(p);
        lo, level, chain := [Bottom], [0], [p];
        SingleLeaf(t, T(), x);
      } else {
        nodes := nodes[p := nodes[p].(leaf := false)];
        lo, level := lo + [Bottom], level + [level[was.id] + 1];
        BTreeAttach.RootGrown(t, T(), was.id, ap.id);
        BTreeAttach.NewRootKeepsLeaves(t, T(), was.id, ap.id, data, chain);
      }
    }

    /** InsertB_Tree: insert, and while a node has too many keys split it and climb. */
    method InsertBTree(str: Str, q: Ptr, i: nat)
      requires Valid()
      requires if root == Null then q == Null else q != Null && InsertionPoint(T(), root.id, q.id, i, str)
      modifies this
      ensures Valid()
      ensures forall k :: Has(k) <==> old(Has(k)) || k == str
    {
      hide TreeOk, LeavesOk, Contains, InsertionPoint;
      var x, ap: Ptr, q, i: nat, finished := str, Null, q, i, false;
      ghost var s: nat := 0;
      if q != Null {
        PointFacts(T(), root.id, q.id, i, str);
      }
      while q != Null && !finished
        invariant root == old(root)
        invariant q != Null ==> root != Null && q.id < |level| && root.id < |level| && level[q.id] <= level[root.id]
        invariant finished ==> q != Null && Valid()
        invariant ap == Null && !finished ==>
                    && Valid() && x == str && (root == Null <==> q == Null)
                    && (q != Null ==> InsertionPoint(T(), root.id, q.id, i, x))
        invariant ap != Null && !finished ==>
                    && root != Null && Shape(Orphan(s, ap.id))
                    && ap.id < |nodes| && nodes[ap.id].Sized() && x == nodes[ap.id].key[0]
        invariant ap != Null && !finished ==> if q == Null then s == root.id else ParentFound(T(), s, ap.id, q.id, i)
        invariant forall k :: Has(k) <==> old(Has(k)) || ((ap != Null || finished) && k == str)
        decreases if q == Null then 0 else level[root.id] - level[q.id] + 1, !finished
      {
        InsertInto(q.id, i, x, ap, s);
        OverFacts(T(), root.id, q.id);
        if nodes[q.id].keynum <= M {
          finished := true;
          HoleClosed(T(), root.id, q.id);
        } else {
          var half := SplitFull(q.id);
          s := q.id;
          ap := At(half);
          x := nodes[q.id].key[S + 1];
          OrphanFacts(T(), root.id, s, half);
          q := nodes[q.id].parent;
          if q != Null {
            var place, _ := Search(q.id, x);
            i := place;
          }
        }
      }
      if !finished {
        NewRoot(x, ap);
      }
    }

    /** InsertKey: 1 exactly when the key is new. */
    method InsertKey(str: Str) returns (r: int)
      requires Valid()
      modifies this
      ensures Valid() && r == if old(Has(str)) then 0 else 1
      ensures forall k :: Has(k) <==> old(Has(k)) || k == str
    {
      hide TreeOk, LeavesOk, Contains, InsertionPoint;
      var pt, i, found, _, _ := SearchTree(str);
      if !found {
        InsertBTree(str, pt, i);
        return 1;
      }
      return 0;
    }
  }
}
