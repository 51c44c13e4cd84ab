/** AVL.h: the trees its pointers stand for. The left child holds the larger keys. */
module AvlTrees {
  import opened Strings
  import opened Order
  import opened Pointers

  datatype Node = Node(data: Str, bf: int, lchild: Ptr, rchild: Ptr)

  datatype Tree = Nil | Bin(id: nat, data: Str, bf: int, l: Tree, r: Tree)

  /** Pointer `p` is the root of tree `t`. */
  ghost predicate Rep(nodes: seq<Node>, p: Ptr, t: Tree)
    decreases t
  {
    match t
    case Nil => p == Null
    case Bin(id, data, bf, l, r) =>
      && p == At(id) && id < |nodes| && nodes[id].data == data && nodes[id].bf == bf
      && Rep(nodes, nodes[id].lchild, l) && Rep(nodes, nodes[id].rchild, r)
  }

  ghost predicate Uses(t: Tree, n: nat) {
    t.Bin? && (n == t.id || Uses(t.l, n) || Uses(t.r, n))
  }

  ghost predicate NoSharing(t: Tree) {
    t.Bin? ==>
      && NoSharing(t.l) && NoSharing(t.r) && !Uses(t.l, t.id) && !Uses(t.r, t.id)
      && forall n :: Uses(t.l, n) ==> !Uses(t.r, n)
  }

  ghost predicate Stores(t: Tree, k: Str) {
    t.Bin? && (k == t.data || Stores(t.l, k) || Stores(t.r, k))
  }

  /** How deep a stored key lies. */
  ghost function DepthOf(t: Tree, k: Str): nat
    requires Stores(t, k)
  {
    if t.data == k then 0 else 1 + if Stores(t.l, k) then DepthOf(t.l, k) else DepthOf(t.r, k)
  }

  /** The subtrees a word is looked for in, from `t` to the one with the word at its root or an empty one. */
  ghost predicate WayTo(t: Tree, word: Str, way: seq<Tree>) {
    && way != [] && way[0] == t
    && (way[|way| - 1].Bin? ==> way[|way| - 1].data == word)
    && forall i :: 0 <= i < |way| - 1 ==>
         && way[i].Bin? && way[i].data != word
         && way[i + 1] == if Less(way[i].data, word) then way[i].l else way[i].r
  }

  lemma WayExtends(t: Tree, word: Str, way: seq<Tree>)
    requires t.Bin? && t.data != word && WayTo(if Less(t.data, word) then t.l else t.r, word, way)
    ensures WayTo(t, word, [t] + way)
  {
    hide Less;
    var more := [t] + way;
    forall i | 0 <= i < |more| - 1
      ensures more[i].Bin? && more[i].data != word
      ensures more[i + 1] == if Less(more[i].data, word) then more[i].l else more[i].r
    {
      assert i > 0 ==> more[i] == way[i - 1] && more[i + 1] == way[i];
    }
  }

  lemma AtWayEnd(t: Tree, word: Str)
    ensures (t.Bin? ==> t.data == word) ==> WayTo(t, word, [t])
  {
  }

  ghost predicate Ordered(t: Tree) {
    t.Bin? ==>
      && Ordered(t.l) && Ordered(t.r)
      && (forall k :: Stores(t.l, k) ==> Less(t.data, k))
      && (forall k :: Stores(t.r, k) ==> Less(k, t.data))
  }

  ghost function Height(t: Tree): nat {
    if t.Nil? then 0
    else 1 + if Height(t.l) > Height(t.r) then Height(t.l) else Height(t.r)
  }

  /** Every balance factor is the difference of the heights, and at most 1 in size. */
  ghost predicate Balanced(t: Tree) {
    t.Bin? ==> Balanced(t.l) && Balanced(t.r) && t.bf == Height(t.l) - Height(t.r) && -1 <= t.bf <= 1
  }

  ghost function Size(t: Tree): nat {
    if t.Nil? then 0 else Size(t.l) + Size(t.r) + 1
  }

  // ---- the arena ----

  lemma {:induction false} RepFrame(nodes: seq<Node>, nodes': seq<Node>, p: Ptr, t: Tree)
    requires Rep(nodes, p, t)
    requires forall n: nat :: Uses(t, n) && n < |nodes| ==> n < |nodes'| && nodes'[n] == nodes[n]
    ensures Rep(nodes', p, t)
    decreases t
  {
    if t.Bin? {
      assert forall n: nat :: Uses(t.l, n) || Uses(t.r, n) ==> Uses(t, n);
      assert Uses(t, t.id);
      RepFrame(nodes, nodes', nodes[t.id].lchild, t.l);
      RepFrame(nodes, nodes', nodes[t.id].rchild, t.r);
    }
  }

  lemma {:induction false} UsedAreAllocated(nodes: seq<Node>, p: Ptr, t: Tree, n: nat)
    requires Rep(nodes, p, t) && Uses(t, n)
    ensures n < |nodes|
    decreases t
  {
    if Uses(t.l, n) {
      UsedAreAllocated(nodes, nodes[t.id].lchild, t.l, n);
    } else if Uses(t.r, n) {
      UsedAreAllocated(nodes, nodes[t.id].rchild, t.r, n);
    }
  }

  /** What is read at the root of a tree. */
  lemma RootReads(nodes: seq<Node>, p: Ptr, t: Tree)
    requires Rep(nodes, p, t) && t.Bin?
    ensures p == At(t.id) && t.id < |nodes| && nodes[t.id].data == t.data && nodes[t.id].bf == t.bf
    ensures Rep(nodes, nodes[t.id].lchild, t.l) && Rep(nodes, nodes[t.id].rchild, t.r)
  {
  }

  /** Only nodes of `t` have changed. */
  ghost predicate OnlyWithin(nodes: seq<Node>, nodes': seq<Node>, t: Tree) {
    |nodes'| >= |nodes| && forall n: nat :: n < |nodes| && !Uses(t, n) ==> nodes'[n] == nodes[n]
  }

  /** A subtree has been replaced, its pointer stored in the left or right child of the root. */
  lemma Regraft(nodes: seq<Node>, nodes': seq<Node>, t: Tree, left: bool, c: Ptr, t': Tree, bf: int)
    requires t.Bin? && Rep(nodes, At(t.id), t) && NoSharing(t)
    requires OnlyWithin(nodes, nodes', if left then t.l else t.r) && Rep(nodes', c, t') && !Uses(t', t.id)
    ensures t.id < |nodes'|
    ensures var n := nodes'[t.id].(bf := bf);
            Rep(nodes'[t.id := if left then n.(lchild := c) else n.(rchild := c)], At(t.id),
                if left then t.(l := t', bf := bf) else t.(r := t', bf := bf))
  {
    var n := nodes'[t.id].(bf := bf);
    var m := nodes'[t.id := if left then n.(lchild := c) else n.(rchild := c)];
    RepFrame(nodes', m, c, t');
    if left {
      RepFrame(nodes, m, nodes[t.id].rchild, t.r);
    } else {
      RepFrame(nodes, m, nodes[t.id].lchild, t.l);
    }
  }

  lemma SetFactor(nodes: seq<Node>, p: Ptr, t: Tree, bf: int)
    requires t.Bin? && Rep(nodes, p, t) && NoSharing(t)
    ensures Rep(nodes[t.id := nodes[t.id].(bf := bf)], p, t.(bf := bf))
  {
    var nodes' := nodes[t.id := nodes[t.id].(bf := bf)];
    RepFrame(nodes, nodes', nodes[t.id].lchild, t.l);
    RepFrame(nodes, nodes', nodes[t.id].rchild, t.r);
  }

  /** New balance factors at the root and its child. */
  lemma TwoFactors(nodes: seq<Node>, p: Ptr, t: Tree, left: bool, b: int, bc: int)
    requires t.Bin? && Rep(nodes, p, t) && NoSharing(t) && (if left then t.l else t.r).Bin?
    ensures var c := if left then t.l else t.r;
            && c.id < |nodes|
            && var nodes' := nodes[c.id := nodes[c.id].(bf := bc)];
            Rep(nodes'[t.id := nodes'[t.id].(bf := b)], p,
                if left then t.(bf := b, l := c.(bf := bc)) else t.(bf := b, r := c.(bf := bc)))
            && OnlyWithin(nodes, nodes'[t.id := nodes'[t.id].(bf := b)], t)
  {
    var c := if left then t.l else t.r;
    var cp := if left then nodes[t.id].lchild else nodes[t.id].rchild;
    SetFactor(nodes, cp, c, bc);
    Regraft(nodes, nodes[c.id := nodes[c.id].(bf := bc)], t, left, cp, c.(bf := bc), b);
  }

  /** New balance factors at the root, its child, and the inner child of that. */
  lemma ThreeFactors(nodes: seq<Node>, p: Ptr, t: Tree, left: bool, b: int, bc: int, bd: int)
    requires t.Bin? && Rep(nodes, p, t) && NoSharing(t) && (if left then t.l else t.r).Bin?
    requires (if left then t.l.r else t.r.l).Bin?
    ensures var c := if left then t.l else t.r;
            var d := if left then c.r else c.l;
            var d' := d.(bf := bd);
            var c' := if left then c.(bf := bc, r := d') else c.(bf := bc, l := d');
            && c.id < |nodes| && d.id < |nodes| && t.id != c.id && c.id != d.id && d.id != t.id
            && var nodes1 := nodes[t.id := nodes[t.id].(bf := b)];
            var nodes2 := nodes1[c.id := nodes1[c.id].(bf := bc)];
            var nodes3 := nodes2[d.id := nodes2[d.id].(bf := bd)];
            Rep(nodes3, p, if left then t.(bf := b, l := c') else t.(bf := b, r := c')) && OnlyWithin(nodes, nodes3, t)
  {
    var c := if left then t.l else t.r;
    var d := if left then c.r else c.l;
    var cp := if left then nodes[t.id].lchild else nodes[t.id].rchild;
    assert Uses(c, d.id) && Uses(c, c.id);
    TwoFactors(nodes, cp, c, !left, bc, bd);
    var m1 := nodes[d.id := nodes[d.id].(bf := bd)];
    var m2 := m1[c.id := m1[c.id].(bf := bc)];
    var c' := if left then c.(bf := bc, r := d.(bf := bd)) else c.(bf := bc, l := d.(bf := bd));
    assert forall n :: Uses(c', n) <==> Uses(c, n);
    Regraft(nodes, m2, t, left, cp, c', b);
    AnyOrder(nodes, t.id, b, c.id, bc, d.id, bd);
  }

  lemma AnyOrder(nodes: seq<Node>, i: nat, b: int, j: nat, c: int, k: nat, d: int)
    requires i < |nodes| && j < |nodes| && k < |nodes| && i != j && j != k && i != k
    ensures var m1 := nodes[k := nodes[k].(bf := d)];
            var m2 := m1[j := m1[j].(bf := c)];
            var n1 := nodes[i := nodes[i].(bf := b)];
            var n2 := n1[j := n1[j].(bf := c)];
            m2[i := m2[i].(bf := b)] == n2[k := n2[k].(bf := d)]
  {
  }

  // ---- rotations ----

  ghost function RotL(t: Tree): Tree
    requires t.Bin? && t.r.Bin?
  {
    t.r.(l := t.(r := t.r.l))
  }

  ghost function RotR(t: Tree): Tree
    requires t.Bin? && t.l.Bin?
  {
    t.l.(r := t.(l := t.l.r))
  }

  /** The same keys in the same order, in the same nodes. */
  ghost predicate SameContents(t: Tree, t': Tree) {
    && (forall k :: Stores(t', k) <==> Stores(t, k))
    && (forall n :: Uses(t', n) <==> Uses(t, n))
    && (NoSharing(t) ==> NoSharing(t')) && (Ordered(t) ==> Ordered(t')) && Size(t') == Size(t)
  }

  lemma RotLKeeps(t: Tree)
    requires t.Bin? && t.r.Bin?
    ensures SameContents(t, RotL(t))
  {
    hide Less;
    var v := RotL(t);
    assert forall k :: Stores(v.l, k) <==> k == t.data || Stores(t.l, k) || Stores(t.r.l, k);
    assert forall n :: Uses(v.l, n) <==> n == t.id || Uses(t.l, n) || Uses(t.r.l, n);
    assert forall n :: Uses(t.r, n) <==> n == t.r.id || Uses(t.r.l, n) || Uses(t.r.r, n);
    if NoSharing(t) {
      assert NoSharing(t.r) && !Uses(t.r, t.id);
      assert NoSharing(v.l);
    }
    assert forall k :: Stores(v, k) <==> Stores(t, k);
    assert forall k :: Uses(v, k) <==> Uses(t, k);
    assert NoSharing(t) ==> NoSharing(v);
    assert Size(v) == Size(t);
    if Ordered(t) {
      assert Ordered(t.r) && Stores(t.r, t.r.data) && forall k :: Stores(t.r.l, k) ==> Stores(t.r, k);
      forall k | Stores(t.l, k)
        ensures Less(t.r.data, k)
      {
        LessTransitive(t.r.data, t.data, k);
      }
      assert Ordered(v.l);
    }
  }

  lemma RotRKeeps(t: Tree)
    requires t.Bin? && t.l.Bin?
    ensures SameContents(t, RotR(t))
  {
    hide Less;
    var v := RotR(t);
    assert forall k :: Stores(v.r, k) <==> k == t.data || Stores(t.r, k) || Stores(t.l.r, k);
    assert forall n :: Uses(v.r, n) <==> n == t.id || Uses(t.r, n) || Uses(t.l.r, n);
    assert forall n :: Uses(t.l, n) <==> n == t.l.id || Uses(t.l.l, n) || Uses(t.l.r, n);
    if NoSharing(t) {
      assert NoSharing(t.l) && !Uses(t.l, t.id);
      assert NoSharing(v.r);
    }
    assert forall k :: Stores(v, k) <==> Stores(t, k);
    assert forall k :: Uses(v, k) <==> Uses(t, k);
    assert NoSharing(t) ==> NoSharing(v);
    assert Size(v) == Size(t);
    if Ordered(t) {
      assert Ordered(t.l) && Stores(t.l, t.l.data) && forall k :: Stores(t.l.r, k) ==> Stores(t.l, k);
      forall k | Stores(t.r, k)
        ensures Less(k, t.l.data)
      {
        LessTransitive(k, t.data, t.l.data);
      }
      assert Ordered(v.r);
    }
  }

  lemma SameAcross(t: Tree, u: Tree, v: Tree)
    requires SameContents(t, u) && SameContents(u, v)
    ensures SameContents(t, v)
  {
  }

  /** Replacing the children by trees with the same contents. */
  lemma SameBelow(t: Tree, l': Tree, r': Tree, bf: int)
    requires t.Bin? && SameContents(t.l, l') && SameContents(t.r, r')
    ensures SameContents(t, t.(l := l', r := r', bf := bf))
  {
    hide Less;
    var u := t.(l := l', r := r', bf := bf);
    assert forall k :: Stores(u, k) <==> Stores(t, k);
    assert forall m :: Uses(u, m) <==> Uses(t, m);
    assert NoSharing(t) ==> NoSharing(u);
    assert Ordered(t) ==> Ordered(u);
  }

  lemma SameItself(t: Tree)
    ensures SameContents(t, t)
  {
  }

  // ---- the left side too high ----

  /** The left side is too high by one, its own root not even. */
  ghost predicate LeftHeavy(t: Tree) {
    && t.Bin? && t.l.Bin? && Balanced(t.l) && Balanced(t.r) && Height(t.l) == Height(t.r) + 2 && t.l.bf != 0
  }

  ghost function LeftSingle(t: Tree): Tree
    requires t.Bin? && t.l.Bin?
  {
    t.(bf := 0, l := t.l.(bf := 0))
  }

  lemma LeftSingleBalanced(t: Tree)
    requires LeftHeavy(t) && t.l.bf == 1
    ensures var t' := RotR(LeftSingle(t));
            t'.Bin? && Balanced(t') && Height(t') == Height(t.l) && SameContents(t, t') &&
              SameContents(t, LeftSingle(t))
  {
    SameItself(t.l);
    SameItself(t.r);
    SameItself(t.l.l);
    SameItself(t.l.r);
    SameBelow(t.l, t.l.l, t.l.r, 0);
    SameBelow(t, LeftSingle(t).l, LeftSingle(t).r, 0);
    RotRKeeps(LeftSingle(t));
    SameAcross(t, LeftSingle(t), RotR(LeftSingle(t)));
  }

  /** The double case: the factors the code sets before it rotates. */
  ghost function LeftFactors(t: Tree): Tree
    requires t.Bin? && t.l.Bin? && t.l.r.Bin?
  {
    var d := t.l.r;
    var b := if d.bf == 1 then -1 else 0;
    var bc := if d.bf == -1 then 1 else 0;
    t.(bf := b, l := t.l.(bf := bc, r := d.(bf := 0)))
  }

  ghost function LeftDouble(t: Tree): Tree
    requires t.Bin? && t.l.Bin? && t.l.r.Bin?
  {
    RotR(t.(l := RotL(t.l)))
  }

  lemma LeftDoubleKeeps(t: Tree)
    requires t.Bin? && t.l.Bin? && t.l.r.Bin?
    ensures SameContents(t, LeftDouble(t)) && SameContents(t, t.(l := RotL(t.l)))
  {
    hide SameContents;
    RotLKeeps(t.l);
    SameItself(t.r);
    var u := t.(l := RotL(t.l));
    SameBelow(t, u.l, u.r, t.bf);
    RotRKeeps(u);
    SameAcross(t, u, RotR(u));
  }

  lemma LeftFactorsKeep(t: Tree)
    requires t.Bin? && t.l.Bin? && t.l.r.Bin?
    ensures SameContents(t, LeftFactors(t))
  {
    hide SameContents;
    var u := LeftFactors(t);
    var d := t.l.r;
    SameItself(d.l);
    SameItself(d.r);
    SameItself(t.l.l);
    SameItself(t.r);
    SameBelow(d, d.l, d.r, 0);
    SameBelow(t.l, u.l.l, u.l.r, u.l.bf);
    SameBelow(t, u.l, u.r, u.bf);
  }

  lemma LeftDoubleBalanced(t: Tree)
    requires LeftHeavy(t) && t.l.bf != 1
    ensures t.l.r.Bin?
    ensures var t' := LeftDouble(LeftFactors(t));
            t'.Bin? && Balanced(t') && Height(t') == Height(t.l) && SameContents(t, t')
  {
    LeftFactorsKeep(t);
    LeftDoubleKeeps(LeftFactors(t));
    SameAcross(t, LeftFactors(t), LeftDouble(LeftFactors(t)));
    hide SameContents;
    var d := t.l.r;
    var t' := LeftDouble(LeftFactors(t));
    assert Balanced(d) && Balanced(t.l.l);
    assert Balanced(t'.l) && Balanced(t'.r);
  }

  // ---- the right side too high ----

  /** The right side is too high by one, its own root not even. */
  ghost predicate RightHeavy(t: Tree) {
    && t.Bin? && t.r.Bin? && Balanced(t.l) && Balanced(t.r) && Height(t.r) == Height(t.l) + 2 && t.r.bf != 0
  }

  ghost function RightSingle(t: Tree): Tree
    requires t.Bin? && t.r.Bin?
  {
    t.(bf := 0, r := t.r.(bf := 0))
  }

  lemma RightSingleBalanced(t: Tree)
    requires RightHeavy(t) && t.r.bf == -1
    ensures var t' := RotL(RightSingle(t));
            t'.Bin? && Balanced(t') && Height(t') == Height(t.r) && SameContents(t, t') &&
              SameContents(t, RightSingle(t))
  {
    SameItself(t.l);
    SameItself(t.r);
    SameItself(t.r.l);
    SameItself(t.r.r);
    SameBelow(t.r, t.r.l, t.r.r, 0);
    SameBelow(t, RightSingle(t).l, RightSingle(t).r, 0);
    RotLKeeps(RightSingle(t));
    SameAcross(t, RightSingle(t), RotL(RightSingle(t)));
  }

  /** The double case: the factors the code sets before it rotates. */
  ghost function RightFactors(t: Tree): Tree
    requires t.Bin? && t.r.Bin? && t.r.l.Bin?
  {
    var d := t.r.l;
    var b := if d.bf == -1 then 1 else 0;
    var bc := if d.bf == 1 then -1 else 0;
    t.(bf := b, r := t.r.(bf := bc, l := d.(bf := 0)))
  }

  ghost function RightDouble(t: Tree): Tree
    requires t.Bin? && t.r.Bin? && t.r.l.Bin?
  {
    RotL(t.(r := RotR(t.r)))
  }

  lemma RightDoubleKeeps(t: Tree)
    requires t.Bin? && t.r.Bin? && t.r.l.Bin?
    ensures SameContents(t, RightDouble(t)) && SameContents(t, t.(r := RotR(t.r)))
  {
    hide SameContents;
    RotRKeeps(t.r);
    SameItself(t.l);
    var u := t.(r := RotR(t.r));
    SameBelow(t, u.l, u.r, t.bf);
    RotLKeeps(u);
    SameAcross(t, u, RotL(u));
  }

  lemma RightFactorsKeep(t: Tree)
    requires t.Bin? && t.r.Bin? && t.r.l.Bin?
    ensures SameContents(t, RightFactors(t))
  {
    hide SameContents;
    var u := RightFactors(t);
    var d := t.r.l;
    SameItself(d.l);
    SameItself(d.r);
    SameItself(t.r.r);
    SameItself(t.l);
    SameBelow(d, d.l, d.r, 0);
    SameBelow(t.r, u.r.l, u.r.r, u.r.bf);
    SameBelow(t, u.l, u.r, u.bf);
  }

  lemma RightDoubleBalanced(t: Tree)
    requires RightHeavy(t) && t.r.bf != -1
    ensures t.r.l.Bin?
    ensures var t' := RightDouble(RightFactors(t));
            t'.Bin? && Balanced(t') && Height(t') == Height(t.r) && SameContents(t, t')
  {
    RightFactorsKeep(t);
    RightDoubleKeeps(RightFactors(t));
    SameAcross(t, RightFactors(t), RightDouble(RightFactors(t)));
    hide SameContents;
    var d := t.r.l;
    var t' := RightDouble(RightFactors(t));
    assert Balanced(d) && Balanced(t.r.r);
    assert Balanced(t'.l) && Balanced(t'.r);
  }

  // ---- insertion ----

  /** What inserting the new key `s` in a fresh node makes of `t`. */
  ghost predicate Inserted(t: Tree, t': Tree, s: Str, n: nat, taller: bool) {
    && t'.Bin? && (forall k :: Stores(t', k) <==> Stores(t, k) || k == s)
    && (forall m :: Uses(t', m) <==> Uses(t, m) || m == n)
    && NoSharing(t') && Ordered(t') && Size(t') == Size(t) + 1
    && Balanced(t') && Height(t') == Height(t) + (if taller then 1 else 0)
    && (taller && t.Bin? ==> t'.bf != 0)
  }

  /** Everything but the balance, when the key went to one side. */
  ghost predicate Joined(t: Tree, t': Tree, s: Str, n: nat) {
    && (forall k :: Stores(t', k) <==> Stores(t, k) || k == s)
    && (forall m :: Uses(t', m) <==> Uses(t, m) || m == n)
    && NoSharing(t') && Ordered(t') && Size(t') == Size(t) + 1
  }

  lemma JoinedLeft(t: Tree, l': Tree, s: Str, n: nat, taller: bool, bf: int)
    requires t.Bin? && NoSharing(t) && Ordered(t) && !Uses(t, n)
    requires Less(t.data, s) && Inserted(t.l, l', s, n, taller)
    ensures Joined(t, t.(l := l', bf := bf), s, n)
  {
    hide Less, Balanced, Height;
    var u := t.(l := l', bf := bf);
    assert forall k :: Stores(u, k) <==> Stores(t, k) || k == s;
    assert forall m :: Uses(u, m) <==> Uses(t, m) || m == n;
    assert NoSharing(u);
    assert Ordered(u);
  }

  lemma JoinedRight(t: Tree, r': Tree, s: Str, n: nat, taller: bool, bf: int)
    requires t.Bin? && NoSharing(t) && Ordered(t) && !Uses(t, n)
    requires Less(s, t.data) && Inserted(t.r, r', s, n, taller)
    ensures Joined(t, t.(r := r', bf := bf), s, n)
  {
    hide Less, Balanced, Height;
    var u := t.(r := r', bf := bf);
    assert forall k :: Stores(u, k) <==> Stores(t, k) || k == s;
    assert forall m :: Uses(u, m) <==> Uses(t, m) || m == n;
    assert NoSharing(u);
    assert Ordered(u);
  }

  /** A key on one side of the root cannot be on the other. */
  lemma NotElsewhere(t: Tree, s: Str)
    requires t.Bin? && Ordered(t)
    ensures Less(t.data, s) ==> (Stores(t, s) <==> Stores(t.l, s))
    ensures Less(s, t.data) ==> (Stores(t, s) <==> Stores(t.r, s))
  {
    hide Less;
    TotalOrder(t.data, s);
  }

  lemma NewLeaf(nodes: seq<Node>, nodes': seq<Node>, t: Tree, t': Tree, s: Str)
    requires t.Nil? && nodes' == nodes + [Node(s, 0, Null, Null)] && t' == Bin(|nodes|, s, 0, Nil, Nil)
    ensures Rep(nodes', At(|nodes|), t') && Inserted(t, t', s, |nodes|, true) && !Stores(t, s)
  {
  }

  lemma RootOfTree(nodes: seq<Node>, p: Ptr, t: Tree)
    requires Rep(nodes, p, t) && NoSharing(t) && Ordered(t) && Balanced(t)
    ensures p == Null <==> t.Nil?
    ensures t.Bin? ==>
              && p == At(t.id) && t.id < |nodes| && nodes[t.id].data == t.data && nodes[t.id].bf == t.bf &&
                 -1 <= t.bf <= 1
              && Rep(nodes, nodes[t.id].lchild, t.l) && NoSharing(t.l) && Ordered(t.l) && Balanced(t.l)
              && Rep(nodes, nodes[t.id].rchild, t.r) && NoSharing(t.r) && Ordered(t.r) && Balanced(t.r)
  {
  }

  lemma HasRoot(t: Tree)
    requires t.Bin?
    ensures Stores(t, t.data) && Uses(t, t.id)
  {
  }

  lemma GraftedLeft(nodes: seq<Node>, nodes': seq<Node>, p: Ptr, t: Tree, s: Str, c: Ptr, kid: Tree, taller: bool)
    requires Rep(nodes, p, t) && NoSharing(t) && Ordered(t) && t.Bin? && Less(t.data, s)
    requires OnlyWithin(nodes, nodes', t.l) && Rep(nodes', c, kid) && Inserted(t.l, kid, s, |nodes|, taller)
    ensures p == At(t.id) && t.id < |nodes'| && !Uses(t, |nodes|) && t.id < |nodes|
    ensures var m := nodes'[t.id := nodes'[t.id].(lchild := c)];
            Rep(m, p, t.(l := kid)) && OnlyWithin(nodes, m, t) && m[t.id].bf == t.bf
    ensures NoSharing(t.(l := kid))
  {
    if Uses(t, |nodes|) {
      UsedAreAllocated(nodes, p, t, |nodes|);
    }
    JoinedLeft(t, kid, s, |nodes|, taller, t.bf);
    hide Less, Ordered, Stores, Balanced, Height, Size;
    Regraft(nodes, nodes', t, true, c, kid, t.bf);
  }

  lemma LeftTooHigh(t: Tree, kid: Tree, s: Str, n: nat)
    requires t.Bin? && NoSharing(t) && Ordered(t) && Balanced(t) && t.bf == 1 && !Uses(t, n) && Less(t.data, s)
    requires Inserted(t.l, kid, s, n, true)
    ensures LeftHeavy(t.(l := kid)) && Joined(t, t.(l := kid), s, n) && Height(kid) == Height(t)
  {
    JoinedLeft(t, kid, s, n, true, t.bf);
  }

  lemma LeftDone(t: Tree, kid: Tree, s: Str, n: nat, t': Tree)
    requires t.Bin? && Joined(t, t.(l := kid), s, n) && Height(kid) == Height(t)
    requires SameContents(t.(l := kid), t') && t'.Bin? && Balanced(t') && Height(t') == Height(kid)
    ensures Inserted(t, t', s, n, false)
  {
  }

  lemma LeftHigher(t: Tree, kid: Tree, s: Str, n: nat, taller: bool)
    requires t.Bin? && NoSharing(t) && Ordered(t) && Balanced(t) && !Uses(t, n) && Less(t.data, s)
    requires Inserted(t.l, kid, s, n, taller) && (taller ==> t.bf != 1)
    ensures var bf := if !taller then t.bf else if t.bf == 0 then 1 else 0;
            Inserted(t, t.(l := kid, bf := bf), s, n, taller && t.bf == 0)
  {
    var bf := if !taller then t.bf else if t.bf == 0 then 1 else 0;
    JoinedLeft(t, kid, s, n, taller, bf);
    hide Less, Ordered, Stores, NoSharing, Uses;
  }

  lemma GraftedRight(nodes: seq<Node>, nodes': seq<Node>, p: Ptr, t: Tree, s: Str, c: Ptr, kid: Tree, taller: bool)
    requires Rep(nodes, p, t) && NoSharing(t) && Ordered(t) && t.Bin? && Less(s, t.data)
    requires OnlyWithin(nodes, nodes', t.r) && Rep(nodes', c, kid) && Inserted(t.r, kid, s, |nodes|, taller)
    ensures p == At(t.id) && t.id < |nodes'| && !Uses(t, |nodes|) && t.id < |nodes|
    ensures var m := nodes'[t.id := nodes'[t.id].(rchild := c)];
            Rep(m, p, t.(r := kid)) && OnlyWithin(nodes, m, t) && m[t.id].bf == t.bf
    ensures NoSharing(t.(r := kid))
  {
    if Uses(t, |nodes|) {
      UsedAreAllocated(nodes, p, t, |nodes|);
    }
    JoinedRight(t, kid, s, |nodes|, taller, t.bf);
    hide Less, Ordered, Stores, Balanced, Height, Size;
    Regraft(nodes, nodes', t, false, c, kid, t.bf);
  }

  lemma RightTooHigh(t: Tree, kid: Tree, s: Str, n: nat)
    requires t.Bin? && NoSharing(t) && Ordered(t) && Balanced(t) && t.bf == -1 && !Uses(t, n) && Less(s, t.data)
    requires Inserted(t.r, kid, s, n, true)
    ensures RightHeavy(t.(r := kid)) && Joined(t, t.(r := kid), s, n) && Height(kid) == Height(t)
  {
    JoinedRight(t, kid, s, n, true, t.bf);
  }

  lemma RightDone(t: Tree, kid: Tree, s: Str, n: nat, t': Tree)
    requires t.Bin? && Joined(t, t.(r := kid), s, n) && Height(kid) == Height(t)
    requires SameContents(t.(r := kid), t') && t'.Bin? && Balanced(t') && Height(t') == Height(kid)
    ensures Inserted(t, t', s, n, false)
  {
  }

  lemma RightHigher(t: Tree, kid: Tree, s: Str, n: nat, taller: bool)
    requires t.Bin? && NoSharing(t) && Ordered(t) && Balanced(t) && !Uses(t, n) && Less(s, t.data)
    requires Inserted(t.r, kid, s, n, taller) && (taller ==> t.bf != -1)
    ensures var bf := if !taller then t.bf else if t.bf == 0 then -1 else 0;
            Inserted(t, t.(r := kid, bf := bf), s, n, taller && t.bf == 0)
  {
    var bf := if !taller then t.bf else if t.bf == 0 then -1 else 0;
    JoinedRight(t, kid, s, n, taller, bf);
    hide Less, Ordered, Stores, NoSharing, Uses;
  }

  // ---- size against height ----

  function Fib(n: nat): nat {
    if n < 2 then n else Fib(n - 1) + Fib(n - 2)
  }

  lemma FibPair(lo: nat, hi: nat, a: nat, b: nat)
    requires lo <= hi <= lo + 1 && a >= Fib(lo + 2) && b >= Fib(hi + 2)
    ensures a + b >= Fib(hi + 3)
  {
  }

  lemma SizeStep(t: Tree, lo: nat, hi: nat)
    requires Balanced(t) && t.Bin?
    requires Size(t.l) + 1 >= Fib(lo + 2) && Size(t.r) + 1 >= Fib(hi + 2) && -1 <= lo - hi <= 1
    ensures Size(t) + 1 >= Fib((if lo > hi then lo else hi) + 3)
  {
    hide Fib, Balanced;
    if lo < hi {
      FibPair(lo, hi, Size(t.l) + 1, Size(t.r) + 1);
    } else {
      FibPair(hi, lo, Size(t.r) + 1, Size(t.l) + 1);
    }
  }

  /** A balanced tree of height h holds at least Fib(h + 2) - 1 keys. */
  lemma {:induction false} SizeBound(t: Tree)
    requires Balanced(t)
    ensures Size(t) + 1 >= Fib(Height(t) + 2)
  {
    if t.Bin? {
      SizeBound(t.l);
      SizeBound(t.r);
      SizeStep(t, Height(t.l), Height(t.r));
    }
  }
}
