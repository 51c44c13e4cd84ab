/** Tries in an arena: nodes with a tag and child pointers, whose low bit tells a node from a
    string. A place in such a trie, the `void **` the C code walks with, is a context with a hole. */
module Tries {
  import opened Strings

  /** A tagged pointer: null, a stored string, or an inner node. */
  datatype Link = Null | Text(s: Str) | Inner(id: nat)

  datatype Cell<L> = Cell(tag: L, child: seq<Link>)

  /** The trie a pointer stands for. */
  datatype Tree<L> = Empty | Tip(s: Str) | Fork(id: nat, tag: L, kids: seq<Tree<L>>)

  /** A trie with a hole at child `k` of node `id`, or at the root. */
  datatype Ctx<L> = Top | In(up: Ctx<L>, id: nat, tag: L, kids: seq<Tree<L>>, k: nat)

  ghost predicate Rep<L>(cells: seq<Cell<L>>, p: Link, t: Tree<L>)
    decreases t
  {
    match t
    case Empty => p == Null
    case Tip(s) => p == Text(s)
    case Fork(id, tag, kids) =>
      && p == Inner(id) && id < |cells| && cells[id].tag == tag && |cells[id].child| == |kids|
      && forall k :: 0 <= k < |kids| ==> Rep(cells, cells[id].child[k], kids[k])
  }

  /** String `s` hangs below some node. */
  ghost predicate Stores<L>(t: Tree<L>, s: Str) {
    match t
    case Empty => false
    case Tip(s') => s == s'
    case Fork(_, _, kids) => exists k :: 0 <= k < |kids| && Stores(kids[k], s)
  }

  ghost predicate Uses<L>(t: Tree<L>, n: nat) {
    t.Fork? && (n == t.id || exists k :: 0 <= k < |t.kids| && Uses(t.kids[k], n))
  }

  /** No node occurs twice. */
  ghost predicate Distinct<L>(t: Tree<L>) {
    t.Fork? ==>
      && (forall k :: 0 <= k < |t.kids| ==> Distinct(t.kids[k]) && !Uses(t.kids[k], t.id))
      && (forall j, k, n :: 0 <= j < k < |t.kids| && Uses(t.kids[j], n) ==> !Uses(t.kids[k], n))
  }

  /** Filling the hole. */
  ghost function Plug<L>(c: Ctx<L>, t: Tree<L>): Tree<L> {
    match c
    case Top => t
    case In(up, id, tag, kids, k) => if k < |kids| then Plug(up, Fork(id, tag, kids[k := t])) else t
  }

  ghost predicate CtxUses<L>(c: Ctx<L>, n: nat) {
    c.In? && (n == c.id || CtxUses(c.up, n) || exists j :: 0 <= j < |c.kids| && j != c.k && Uses(c.kids[j], n))
  }

  ghost predicate CtxDistinct<L>(c: Ctx<L>) {
    c.In? ==>
      && c.k < |c.kids| && CtxDistinct(c.up) && !CtxUses(c.up, c.id)
      && (forall j :: 0 <= j < |c.kids| && j != c.k ==> Distinct(c.kids[j]) && !Uses(c.kids[j], c.id))
      && (forall j, n :: 0 <= j < |c.kids| && j != c.k && Uses(c.kids[j], n) ==> !CtxUses(c.up, n))
      && (forall j, l, n :: 0 <= j < l < |c.kids| && j != c.k && l != c.k && Uses(c.kids[j], n) ==> !Uses(c.kids[l], n))
  }

  /** Context and filling share no node. */
  ghost predicate Apart<L>(c: Ctx<L>, t: Tree<L>) {
    && CtxDistinct(c) && Distinct(t)
    && forall n :: Uses(t, n) ==> !CtxUses(c, n)
  }

  /** Pointer `p` sits in the hole of the context; `root` is the root pointer. */
  ghost predicate CtxRep<L>(cells: seq<Cell<L>>, root: Link, p: Link, c: Ctx<L>)
    decreases c
  {
    match c
    case Top => root == p
    case In(up, id, tag, kids, k) =>
      && id < |cells| && cells[id].tag == tag && |cells[id].child| == |kids| && k < |kids|
      && cells[id].child[k] == p
      && (forall j :: 0 <= j < |kids| && j != k ==> Rep(cells, cells[id].child[j], kids[j]))
      && CtxRep(cells, root, Inner(id), up)
  }

  // ---- frames ----

  ghost predicate SameWhereUsed<L>(cells: seq<Cell<L>>, cells': seq<Cell<L>>, t: Tree<L>) {
    forall n: nat :: Uses(t, n) && n < |cells| ==> n < |cells'| && cells'[n] == cells[n]
  }

  lemma {:induction false} RepFrame<L>(cells: seq<Cell<L>>, cells': seq<Cell<L>>, p: Link, t: Tree<L>)
    requires Rep(cells, p, t) && SameWhereUsed(cells, cells', t)
    ensures Rep(cells', p, t)
    decreases t
  {
    if t.Fork? {
      assert Uses(t, t.id);
      forall k: nat | k < |t.kids|
        ensures Rep(cells', cells[t.id].child[k], t.kids[k])
      {
        assert forall n: nat :: Uses(t.kids[k], n) ==> Uses(t, n);
        RepFrame(cells, cells', cells[t.id].child[k], t.kids[k]);
      }
    }
  }

  lemma {:induction false} CtxFrame<L>(cells: seq<Cell<L>>, cells': seq<Cell<L>>, root: Link, p: Link, c: Ctx<L>)
    requires CtxRep(cells, root, p, c)
    requires forall n: nat :: CtxUses(c, n) && n < |cells| ==> n < |cells'| && cells'[n] == cells[n]
    ensures CtxRep(cells', root, p, c)
    decreases c
  {
    if c.In? {
      assert CtxUses(c, c.id);
      forall j: nat | j < |c.kids| && j != c.k
        ensures Rep(cells', cells[c.id].child[j], c.kids[j])
      {
        assert forall n: nat :: Uses(c.kids[j], n) ==> CtxUses(c, n);
        RepFrame(cells, cells', cells[c.id].child[j], c.kids[j]);
      }
      assert forall n: nat :: CtxUses(c.up, n) ==> CtxUses(c, n);
      CtxFrame(cells, cells', root, Inner(c.id), c.up);
    }
  }

  lemma {:induction false} UsedAreAllocated<L>(cells: seq<Cell<L>>, p: Link, t: Tree<L>, n: nat)
    requires Rep(cells, p, t) && Uses(t, n)
    ensures n < |cells|
    decreases t
  {
    if n != t.id {
      var k :| 0 <= k < |t.kids| && Uses(t.kids[k], n);
      UsedAreAllocated(cells, cells[t.id].child[k], t.kids[k], n);
    }
  }

  lemma {:induction false} CtxAllocated<L>(cells: seq<Cell<L>>, root: Link, p: Link, c: Ctx<L>, n: nat)
    requires CtxRep(cells, root, p, c) && CtxUses(c, n)
    ensures n < |cells|
    decreases c
  {
    if CtxUses(c.up, n) {
      CtxAllocated(cells, root, Inner(c.id), c.up, n);
    } else if n != c.id {
      var j :| 0 <= j < |c.kids| && j != c.k && Uses(c.kids[j], n);
      UsedAreAllocated(cells, cells[c.id].child[j], c.kids[j], n);
    }
  }

  // ---- walking and writing ----

  lemma Descend<L>(cells: seq<Cell<L>>, root: Link, p: Link, c: Ctx<L>, t: Tree<L>, k: nat)
    requires Apart(c, t) && CtxRep(cells, root, p, c) && Rep(cells, p, t) && t.Fork? && k < |t.kids|
    ensures var d := In(c, t.id, t.tag, t.kids, k);
            && Apart(d, t.kids[k]) && Plug(d, t.kids[k]) == Plug(c, t)
            && CtxRep(cells, root, cells[t.id].child[k], d) && Rep(cells, cells[t.id].child[k], t.kids[k])
  {
    hide CtxRep, Plug;
    assert t.kids[k := t.kids[k]] == t.kids;
    DescendApart(c, t, k);
    DescendRep(cells, root, p, c, t, k);
  }

  lemma DescendApart<L>(c: Ctx<L>, t: Tree<L>, k: nat)
    requires Apart(c, t) && t.Fork? && k < |t.kids|
    ensures Apart(In(c, t.id, t.tag, t.kids, k), t.kids[k])
  {
  }

  lemma DescendRep<L>(cells: seq<Cell<L>>, root: Link, p: Link, c: Ctx<L>, t: Tree<L>, k: nat)
    requires CtxRep(cells, root, p, c) && Rep(cells, p, t) && t.Fork? && k < |t.kids|
    ensures var d := In(c, t.id, t.tag, t.kids, k);
            && CtxRep(cells, root, cells[t.id].child[k], d) && Rep(cells, cells[t.id].child[k], t.kids[k])
            && Plug(d, t.kids[k]) == Plug(c, t)
  {
    assert t.kids[k := t.kids[k]] == t.kids;
  }

  /** The arena after writing `q` to the hole, which is in a node. */
  function Written<L>(cells: seq<Cell<L>>, id: nat, k: nat, q: Link): seq<Cell<L>>
    requires id < |cells| && k < |cells[id].child|
  {
    cells[id := cells[id].(child := cells[id].child[k := q])]
  }

  lemma WriteHole<L>(cells: seq<Cell<L>>, root: Link, p: Link, c: Ctx<L>, q: Link, t: Tree<L>)
    requires c.In? && CtxRep(cells, root, p, c) && Apart(c, t) && Rep(cells, q, t)
    ensures var cells' := Written(cells, c.id, c.k, q);
            CtxRep(cells', root, q, c) && Rep(cells', q, t)
  {
    var cells' := Written(cells, c.id, c.k, q);
    assert CtxUses(c, c.id);
    RepFrame(cells, cells', q, t);
    CtxFrame(cells, cells', root, Inner(c.id), c.up);
    forall j | 0 <= j < |c.kids| && j != c.k
      ensures Rep(cells', cells[c.id].child[j], c.kids[j])
    {
      RepFrame(cells, cells', cells[c.id].child[j], c.kids[j]);
    }
  }

  /** Coming back up: a filled context is a trie again. */
  lemma {:induction false} PlugRep<L>(cells: seq<Cell<L>>, root: Link, p: Link, c: Ctx<L>, t: Tree<L>)
    requires CtxRep(cells, root, p, c) && Rep(cells, p, t)
    ensures Rep(cells, root, Plug(c, t))
    decreases c
  {
    if c.In? {
      PlugRep(cells, root, Inner(c.id), c.up, Fork(c.id, c.tag, c.kids[c.k := t]));
    }
  }

  lemma {:induction false} PlugDistinct<L>(c: Ctx<L>, t: Tree<L>)
    requires Apart(c, t)
    ensures Distinct(Plug(c, t))
    decreases c
  {
    if c.In? {
      var f := Fork(c.id, c.tag, c.kids[c.k := t]);
      assert CtxUses(c, c.id);
      forall n | Uses(f, n)
        ensures !CtxUses(c.up, n)
      {
        if n != c.id {
          var j :| 0 <= j < |f.kids| && Uses(f.kids[j], n);
        }
      }
      PlugDistinct(c.up, f);
    }
  }

  // ---- places ----

  /** What a `void **` points to: the root pointer or a child pointer of a node. */
  datatype Place = AtRoot | ChildOf(id: nat, k: nat)

  ghost function PlaceOf<L>(c: Ctx<L>): Place {
    if c.In? then ChildOf(c.id, c.k) else AtRoot
  }

  predicate Inside<L>(cells: seq<Cell<L>>, w: Place) {
    w.ChildOf? ==> w.id < |cells| && w.k < |cells[w.id].child|
  }

  function Read<L>(cells: seq<Cell<L>>, root: Link, w: Place): Link
    requires Inside(cells, w)
  {
    if w.ChildOf? then cells[w.id].child[w.k] else root
  }

  function StoreCells<L>(cells: seq<Cell<L>>, w: Place, q: Link): seq<Cell<L>>
    requires Inside(cells, w)
  {
    if w.ChildOf? then Written(cells, w.id, w.k, q) else cells
  }

  function StoreRoot(root: Link, w: Place, q: Link): Link {
    if w.ChildOf? then root else q
  }

  lemma ReadHole<L>(cells: seq<Cell<L>>, root: Link, p: Link, c: Ctx<L>)
    requires CtxRep(cells, root, p, c)
    ensures Inside(cells, PlaceOf(c)) && Read(cells, root, PlaceOf(c)) == p
  {
  }

  /** The place `w` is the hole of context `c`, and holds a pointer to `t`. */
  ghost predicate AtPlace<L>(cells: seq<Cell<L>>, root: Link, w: Place, c: Ctx<L>, t: Tree<L>) {
    && w == PlaceOf(c) && Inside(cells, w) && Apart(c, t)
    && CtxRep(cells, root, Read(cells, root, w), c) && Rep(cells, Read(cells, root, w), t)
  }

  /** The walk starts at the root pointer. */
  lemma StartAtRoot<L>(cells: seq<Cell<L>>, root: Link, t: Tree<L>)
    requires Rep(cells, root, t) && Distinct(t)
    ensures AtPlace(cells, root, AtRoot, Top, t) && Plug(Top, t) == t
  {
  }

  /** What the pointer at a place looks like. */
  lemma LookAt<L>(cells: seq<Cell<L>>, root: Link, w: Place, c: Ctx<L>, t: Tree<L>)
    requires AtPlace(cells, root, w, c, t)
    ensures Inside(cells, w)
    ensures match t
            case Empty => Read(cells, root, w) == Null
            case Tip(s) => Read(cells, root, w) == Text(s)
            case Fork(id, tag, kids) =>
              Read(cells, root, w) == Inner(id) && id < |cells| && cells[id].tag == tag && |cells[id].child| == |kids|
  {
  }

  /** Going down to child `k`. */
  lemma StepDown<L>(cells: seq<Cell<L>>, root: Link, w: Place, c: Ctx<L>, t: Tree<L>, k: nat, x: Tree<L>)
    requires AtPlace(cells, root, w, c, t) && t.Fork? && k < |t.kids|
    ensures AtPlace(cells, root, ChildOf(t.id, k), In(c, t.id, t.tag, t.kids, k), t.kids[k])
    ensures Plug(In(c, t.id, t.tag, t.kids, k), x) == Plug(c, t.(kids := t.kids[k := x]))
  {
    hide Apart, CtxRep;
    Descend(cells, root, Read(cells, root, w), c, t, k);
    ReadHole(cells, root, cells[t.id].child[k], In(c, t.id, t.tag, t.kids, k));
  }

  /** Storing a pointer to `t` in the hole. */
  lemma StoreInHole<L>(cells: seq<Cell<L>>, root: Link, p: Link, c: Ctx<L>, q: Link, t: Tree<L>)
    requires CtxRep(cells, root, p, c) && Apart(c, t) && Rep(cells, q, t)
    ensures Inside(cells, PlaceOf(c))
    ensures var cells', root' := StoreCells(cells, PlaceOf(c), q), StoreRoot(root, PlaceOf(c), q);
            && |cells'| == |cells| && CtxRep(cells', root', q, c) && Rep(cells', q, t)
            && Rep(cells', root', Plug(c, t)) && Distinct(Plug(c, t))
  {
    var cells', root' := StoreCells(cells, PlaceOf(c), q), StoreRoot(root, PlaceOf(c), q);
    if c.In? {
      WriteHole(cells, root, p, c, q, t);
    }
    hide Apart, CtxUses, Written;
    PlugRep(cells', root', q, c, t);
    PlugDistinct(c, t);
  }

  /** A freshly allocated node disturbs nothing. */
  lemma Allocate<L>(cells: seq<Cell<L>>, x: Cell<L>, root: Link, p: Link, c: Ctx<L>, t: Tree<L>)
    requires CtxRep(cells, root, p, c) && Rep(cells, p, t)
    ensures CtxRep(cells + [x], root, p, c) && Rep(cells + [x], p, t)
    ensures !Uses(t, |cells|) && !CtxUses(c, |cells|)
  {
    RepFrame(cells, cells + [x], p, t);
    CtxFrame(cells, cells + [x], root, p, c);
    if Uses(t, |cells|) {
      UsedAreAllocated(cells, p, t, |cells|);
    }
    if CtxUses(c, |cells|) {
      CtxAllocated(cells, root, p, c, |cells|);
    }
  }

  // ---- changes at a place ----

  /** Another pointer is stored at the place. */
  lemma Replaced<L>(cells: seq<Cell<L>>, root: Link, w: Place, c: Ctx<L>, t: Tree<L>, q: Link, t': Tree<L>)
    requires AtPlace(cells, root, w, c, t) && Rep(cells, q, t') && Apart(c, t')
    ensures AtPlace(StoreCells(cells, w, q), StoreRoot(root, w, q), w, c, t')
    ensures |StoreCells(cells, w, q)| == |cells|
  {
    hide Apart, CtxUses;
    StoreInHole(cells, root, Read(cells, root, w), c, q, t');
    ReadHole(StoreCells(cells, w, q), StoreRoot(root, w, q), q, c);
  }

  /** The node of the place gets another tag. */
  lemma Retagged<L>(cells: seq<Cell<L>>, root: Link, w: Place, c: Ctx<L>, t: Tree<L>, tag: L)
    requires AtPlace(cells, root, w, c, t) && c.In?
    ensures c.id < |cells|
    ensures AtPlace(cells[c.id := cells[c.id].(tag := tag)], root, w, c.(tag := tag), t)
  {
    var cells' := cells[c.id := cells[c.id].(tag := tag)];
    assert CtxUses(c, c.id);
    RepFrame(cells, cells', Read(cells, root, w), t);
    CtxFrame(cells, cells', root, Inner(c.id), c.up);
    forall j: nat | j < |c.kids| && j != c.k
      ensures Rep(cells', cells[c.id].child[j], c.kids[j])
    {
      RepFrame(cells, cells', cells[c.id].child[j], c.kids[j]);
    }
  }

  function Nulls(m: nat): seq<Link> {
    seq(m, _ => Null)
  }

  ghost function Empties<L>(m: nat): seq<Tree<L>> {
    seq(m, _ => Empty)
  }

  /** A new node with null children is stored at the place; the next place is its child `k`. */
  lemma NewNode<L>(cells: seq<Cell<L>>, root: Link, w: Place, c: Ctx<L>, t: Tree<L>, tag: L, m: nat, k: nat)
    requires AtPlace(cells, root, w, c, t) && k < m
    ensures var node := Cell(tag, Nulls(m));
            var cells', n := cells + [node], |cells|;
            && Inside(cells', w)
            && AtPlace(StoreCells(cells', w, Inner(n)), StoreRoot(root, w, Inner(n)), ChildOf(n, k),
                       In(c, n, tag, Empties<L>(m), k), Empty)
            && |StoreCells(cells', w, Inner(n))| == n + 1
  {
    var node := Cell(tag, Nulls(m));
    var cells', n := cells + [node], |cells|;
    var f := Fork(n, tag, Empties<L>(m));
    Allocate(cells, node, root, Read(cells, root, w), c, t);
    ReadHole(cells', root, Read(cells, root, w), c);
    BareNodeApart(c, f);
    hide Apart, CtxUses, Uses, CtxRep;
    Replaced(cells', root, w, c, t, Inner(n), f);
    StepDown(StoreCells(cells', w, Inner(n)), StoreRoot(root, w, Inner(n)), w, c, f, k, Empty);
  }

  lemma BareNodeApart<L>(c: Ctx<L>, f: Tree<L>)
    requires CtxDistinct(c) && f.Fork? && !CtxUses(c, f.id) && forall k :: 0 <= k < |f.kids| ==> f.kids[k].Empty?
    ensures Apart(c, f)
  {
  }

  /** Coming back up from child `k`, whose subtree may have changed. */
  lemma StepUp<L>(cells: seq<Cell<L>>, root: Link, c: Ctx<L>, x: Tree<L>)
    requires c.In? && AtPlace(cells, root, ChildOf(c.id, c.k), c, x)
    ensures AtPlace(cells, root, PlaceOf(c.up), c.up, Fork(c.id, c.tag, c.kids[c.k := x]))
  {
    ReadHole(cells, root, Inner(c.id), c.up);
    var f := Fork(c.id, c.tag, c.kids[c.k := x]);
    assert CtxUses(c, c.id);
    forall n | Uses(f, n)
      ensures !CtxUses(c.up, n)
    {
      if n != c.id {
        var j :| 0 <= j < |f.kids| && Uses(f.kids[j], n);
      }
    }
  }
}
