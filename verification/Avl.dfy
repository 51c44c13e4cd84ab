/** AVL.h: an AVL tree of strings. A parameter `BBSTree *` is the pointer it holds on entry and the
    one it holds on return. */
module Avl {
  import opened Strings
  import opened Order
  import opened Pointers
  import opened AvlTrees

  const LH := 1
  const EH := 0
  const RH := -1

  class AvlTree {
    var nodes: seq<Node>
    var root: Ptr
    ghost var tree: Tree

    ghost predicate Valid()
      reads this
    {
      Rep(nodes, root, tree) && NoSharing(tree) && Ordered(tree) && Balanced(tree) && Size(tree) == |nodes|
    }

    ghost predicate Has(k: Str)
      reads `tree
    {
      Stores(tree, k)
    }

    constructor ()
      ensures Valid() && forall k :: !Has(k)
    {
      nodes, root, tree := [], Null, Nil;
    }

    method SetBf(p: Ptr, bf: int)
      requires p.At? && p.id < |nodes|
      modifies this`nodes
      ensures nodes == old(nodes)[p.id := old(nodes)[p.id].(bf := bf)]
    {
      nodes := nodes[p.id := nodes[p.id].(bf := bf)];
    }

    method LRotate(p: Ptr, ghost t: Tree) returns (q: Ptr)
      requires Rep(nodes, p, t) && NoSharing(t) && t.Bin? && t.r.Bin?
      modifies this`nodes
      ensures Rep(nodes, q, RotL(t)) && OnlyWithin(old(nodes), nodes, t) && |nodes| == old(|nodes|)
    {
      ghost var was := nodes;
      var rc := nodes[p.id].rchild;
      nodes := nodes[p.id := nodes[p.id].(rchild := nodes[rc.id].lchild)];
      nodes := nodes[rc.id := nodes[rc.id].(lchild := p)];
      q := rc;
      assert Uses(t, t.id) && Uses(t, t.r.id) && Uses(t.r, t.r.id);
      RepFrame(was, nodes, was[t.id].lchild, t.l);
      RepFrame(was, nodes, was[t.r.id].lchild, t.r.l);
      RepFrame(was, nodes, was[t.r.id].rchild, t.r.r);
    }

    method RRotate(p: Ptr, ghost t: Tree) returns (q: Ptr)
      requires Rep(nodes, p, t) && NoSharing(t) && t.Bin? && t.l.Bin?
      modifies this`nodes
      ensures Rep(nodes, q, RotR(t)) && OnlyWithin(old(nodes), nodes, t) && |nodes| == old(|nodes|)
    {
      ghost var was := nodes;
      var lc := nodes[p.id].lchild;
      nodes := nodes[p.id := nodes[p.id].(lchild := nodes[lc.id].rchild)];
      nodes := nodes[lc.id := nodes[lc.id].(rchild := p)];
      q := lc;
      assert Uses(t, t.id) && Uses(t, t.l.id) && Uses(t.l, t.l.id);
      RepFrame(was, nodes, was[t.id].rchild, t.r);
      RepFrame(was, nodes, was[t.l.id].lchild, t.l.l);
      RepFrame(was, nodes, was[t.l.id].rchild, t.l.r);
    }

    /** The left side has become too high by one: one or two rotations. */
    method LeftBalance(p: Ptr, ghost t: Tree) returns (q: Ptr, ghost t': Tree)
      requires Rep(nodes, p, t) && NoSharing(t) && LeftHeavy(t)
      modifies this`nodes
      ensures Rep(nodes, q, t') && OnlyWithin(old(nodes), nodes, t) && |nodes| == old(|nodes|)
      ensures t'.Bin? && Balanced(t') && Height(t') == Height(t.l) && SameContents(t, t')
    {
      hide Balanced, Height, Ordered, Stores, Rep, NoSharing, Uses;
      ghost var was := nodes;
      RootReads(nodes, p, t);
      RootReads(nodes, nodes[t.id].lchild, t.l);
      var lc := nodes[p.id].lchild;
      if nodes[lc.id].bf == LH {
        LeftSingleBalanced(t);
        SetBf(lc, EH);
        SetBf(p, EH);
        TwoFactors(was, p, t, true, EH, EH);
        q := RRotate(p, LeftSingle(t));
        t' := RotR(LeftSingle(t));
      } else {
        LeftDoubleBalanced(t);
        LeftFactorsKeep(t);
        RootReads(nodes, nodes[t.l.id].rchild, t.l.r);
        var rd := nodes[lc.id].rchild;
        var b, bc := EH, EH;
        if nodes[rd.id].bf == LH {
          b := RH;
        } else if nodes[rd.id].bf == RH {
          bc := LH;
        }
        SetBf(p, b);
        SetBf(lc, bc);
        SetBf(rd, EH);
        ThreeFactors(was, p, t, true, b, bc, EH);
        q := DoubleLeft(p, LeftFactors(t));
        t' := LeftDouble(LeftFactors(t));
      }
    }

    /** The two rotations of the double case. */
    method DoubleLeft(p: Ptr, ghost t: Tree) returns (q: Ptr)
      requires Rep(nodes, p, t) && NoSharing(t) && t.Bin? && t.l.Bin? && t.l.r.Bin?
      modifies this`nodes
      ensures Rep(nodes, q, LeftDouble(t)) && OnlyWithin(old(nodes), nodes, t) && |nodes| == old(|nodes|)
    {
      ghost var was := nodes;
      LeftDoubleKeeps(t);
      RotLKeeps(t.l);
      var c := LRotate(nodes[p.id].lchild, t.l);
      Regraft(was, nodes, t, true, c, RotL(t.l), t.bf);
      nodes := nodes[p.id := nodes[p.id].(lchild := c)];
      q := RRotate(p, t.(l := RotL(t.l)));
    }

    /** The right side has become too high by one: one or two rotations. */
    method RightBalance(p: Ptr, ghost t: Tree) returns (q: Ptr, ghost t': Tree)
      requires Rep(nodes, p, t) && NoSharing(t) && RightHeavy(t)
      modifies this`nodes
      ensures Rep(nodes, q, t') && OnlyWithin(old(nodes), nodes, t) && |nodes| == old(|nodes|)
      ensures t'.Bin? && Balanced(t') && Height(t') == Height(t.r) && SameContents(t, t')
    {
      hide Balanced, Height, Ordered, Stores, Rep, NoSharing, Uses;
      ghost var was := nodes;
      RootReads(nodes, p, t);
      RootReads(nodes, nodes[t.id].rchild, t.r);
      var rc := nodes[p.id].rchild;
      if nodes[rc.id].bf == RH {
        RightSingleBalanced(t);
        SetBf(rc, EH);
        SetBf(p, EH);
        TwoFactors(was, p, t, false, EH, EH);
        q := LRotate(p, RightSingle(t));
        t' := RotL(RightSingle(t));
      } else {
        RightDoubleBalanced(t);
        RightFactorsKeep(t);
        RootReads(nodes, nodes[t.r.id].lchild, t.r.l);
        var ld := nodes[rc.id].lchild;
        var b, bc := EH, EH;
        if nodes[ld.id].bf == RH {
          b := LH;
        } else if nodes[ld.id].bf == LH {
          bc := RH;
        }
        SetBf(p, b);
        SetBf(rc, bc);
        SetBf(ld, EH);
        ThreeFactors(was, p, t, false, b, bc, EH);
        q := DoubleRight(p, RightFactors(t));
        t' := RightDouble(RightFactors(t));
      }
    }

    /** The two rotations of the double case. */
    method DoubleRight(p: Ptr, ghost t: Tree) returns (q: Ptr)
      requires Rep(nodes, p, t) && NoSharing(t) && t.Bin? && t.r.Bin? && t.r.l.Bin?
      modifies this`nodes
      ensures Rep(nodes, q, RightDouble(t)) && OnlyWithin(old(nodes), nodes, t) && |nodes| == old(|nodes|)
    {
      ghost var was := nodes;
      RightDoubleKeeps(t);
      RotRKeeps(t.r);
      var c := RRotate(nodes[p.id].rchild, t.r);
      Regraft(was, nodes, t, false, c, RotR(t.r), t.bf);
      nodes := nodes[p.id := nodes[p.id].(rchild := c)];
      q := LRotate(p, t.(r := RotR(t.r)));
    }

    /** InsertAVL on the tree `t` below `p`: 0 and nothing changed if the key is there; otherwise the
        key is added, and `taller` tells whether the tree has grown by one level. */
    method InsertAVL(p: Ptr, s: Str, ghost t: Tree) returns (q: Ptr, r: int, taller: bool, ghost t': Tree)
      requires Rep(nodes, p, t) && NoSharing(t) && Ordered(t) && Balanced(t)
      modifies this`nodes
      ensures r == (if Stores(t, s) then 0 else 1) && OnlyWithin(old(nodes), nodes, t)
      ensures r == 0 ==> nodes == old(nodes) && q == p && t' == t && !taller
      ensures r == 1 ==> Rep(nodes, q, t') && Inserted(t, t', s, old(|nodes|), taller) && |nodes| == old(|nodes|) + 1
      decreases t
    {
      hide Rep, NoSharing, Ordered, Balanced, Stores, Uses, Less, Inserted, Height;
      q, t' := p, t;
      RootOfTree(nodes, p, t);
      if p == Null {
        nodes := nodes + [Node(s, EH, Null, Null)];
        t' := Bin(|nodes| - 1, s, EH, Nil, Nil);
        NewLeaf(old(nodes), nodes, t, t', s);
        return At(|nodes| - 1), 1, true, t';
      }
      TotalOrder(s, t.data);
      NotElsewhere(t, s);
      if StringCmp(s, nodes[p.id].data) == 0 {
        HasRoot(t);
        return p, 0, false, t;
      }
      if StringCmp(s, nodes[p.id].data) > 0 {
        q, r, taller, t' := InsertLeft(p, s, t);
      } else {
        q, r, taller, t' := InsertRight(p, s, t);
      }
    }

    /** The branch for a larger key: into the left child, then the balance factor. */
    method InsertLeft(p: Ptr, s: Str, ghost t: Tree) returns (q: Ptr, r: int, taller: bool, ghost t': Tree)
      requires Rep(nodes, p, t) && NoSharing(t) && Ordered(t) && Balanced(t)
      requires t.Bin? && Less(t.data, s)
      modifies this`nodes
      ensures r == (if Stores(t, s) then 0 else 1) && OnlyWithin(old(nodes), nodes, t)
      ensures r == 0 ==> nodes == old(nodes) && q == p && t' == t && !taller
      ensures r == 1 ==> Rep(nodes, q, t') && Inserted(t, t', s, old(|nodes|), taller) && |nodes| == old(|nodes|) + 1
      decreases t, 0
    {
      hide Rep, NoSharing, Ordered, Balanced, Stores, Uses, Less, Inserted, Height;
      ghost var was := nodes;
      q, t' := p, t;
      RootOfTree(nodes, p, t);
      NotElsewhere(t, s);
      HasRoot(t);
      ghost var kid;
      var c;
      c, r, taller, kid := InsertAVL(nodes[p.id].lchild, s, t.l);
      if r == 0 {
        return;
      }
      GraftedLeft(was, nodes, p, t, s, c, kid, taller);
      nodes := nodes[p.id := nodes[p.id].(lchild := c)];
      t' := t.(l := kid);
      if taller {
        if nodes[p.id].bf == LH {
          LeftTooHigh(t, kid, s, |was|);
          q, t' := LeftBalance(p, t');
          LeftDone(t, kid, s, |was|, t');
          taller := false;
        } else if nodes[p.id].bf == EH {
          SetFactor(nodes, p, t', LH);
          SetBf(p, LH);
          t' := t'.(bf := LH);
          LeftHigher(t, kid, s, |was|, true);
        } else {
          SetFactor(nodes, p, t', EH);
          SetBf(p, EH);
          t' := t'.(bf := EH);
          LeftHigher(t, kid, s, |was|, true);
          taller := false;
        }
      } else {
        LeftHigher(t, kid, s, |was|, false);
      }
    }

    /** The branch for a smaller key: into the right child, then the balance factor. */
    method InsertRight(p: Ptr, s: Str, ghost t: Tree) returns (q: Ptr, r: int, taller: bool, ghost t': Tree)
      requires Rep(nodes, p, t) && NoSharing(t) && Ordered(t) && Balanced(t)
      requires t.Bin? && Less(s, t.data)
      modifies this`nodes
      ensures r == (if Stores(t, s) then 0 else 1) && OnlyWithin(old(nodes), nodes, t)
      ensures r == 0 ==> nodes == old(nodes) && q == p && t' == t && !taller
      ensures r == 1 ==> Rep(nodes, q, t') && Inserted(t, t', s, old(|nodes|), taller) && |nodes| == old(|nodes|) + 1
      decreases t, 0
    {
      hide Rep, NoSharing, Ordered, Balanced, Stores, Uses, Less, Inserted, Height;
      ghost var was := nodes;
      q, t' := p, t;
      RootOfTree(nodes, p, t);
      NotElsewhere(t, s);
      HasRoot(t);
      ghost var kid;
      var c;
      c, r, taller, kid := InsertAVL(nodes[p.id].rchild, s, t.r);
      if r == 0 {
        return;
      }
      GraftedRight(was, nodes, p, t, s, c, kid, taller);
      nodes := nodes[p.id := nodes[p.id].(rchild := c)];
      t' := t.(r := kid);
      if taller {
        if nodes[p.id].bf == RH {
          RightTooHigh(t, kid, s, |was|);
          q, t' := RightBalance(p, t');
          RightDone(t, kid, s, |was|, t');
          taller := false;
        } else if nodes[p.id].bf == EH {
          SetFactor(nodes, p, t', RH);
          SetBf(p, RH);
          t' := t'.(bf := RH);
          RightHigher(t, kid, s, |was|, true);
        } else {
          SetFactor(nodes, p, t', EH);
          SetBf(p, EH);
          t' := t'.(bf := EH);
          RightHigher(t, kid, s, |was|, true);
          taller := false;
        }
      } else {
        RightHigher(t, kid, s, |was|, false);
      }
    }

    /** SearchAVL, with its count of visited nodes, the null one included: the subtrees of `way`. A word that
        is found costs its depth plus one. */
    method SearchAVL(p: Ptr, word: Str, ghost t: Tree) returns (q: Ptr, cmps: nat, ghost way: seq<Tree>)
      requires Rep(nodes, p, t) && Ordered(t)
      ensures q.At? <==> Stores(t, word)
      ensures q.At? ==> q.id < |nodes| && nodes[q.id].data == word
      ensures WayTo(t, word, way) && cmps == |way|
      ensures Stores(t, word) ==> cmps == DepthOf(t, word) + 1
      ensures 1 <= cmps <= Height(t) + 1
      decreases t
    {
      hide Less, WayTo;
      AtWayEnd(t, word);
      if p == Null {
        return Null, 1, [t];
      }
      NotElsewhere(t, word);
      TotalOrder(word, t.data);
      if StringCmp(word, nodes[p.id].data) == 0 {
        return p, 1, [t];
      } else if StringCmp(word, nodes[p.id].data) > 0 {
        q, cmps, way := SearchAVL(nodes[p.id].lchild, word, t.l);
      } else {
        q, cmps, way := SearchAVL(nodes[p.id].rchild, word, t.r);
      }
      WayExtends(t, word, way);
      cmps, way := cmps + 1, [t] + way;
    }

    /** Inserting into the whole tree. */
    method Insert(s: Str) returns (r: int)
      requires Valid()
      modifies this
      ensures Valid() && r == if old(Has(s)) then 0 else 1
      ensures forall k :: Has(k) <==> old(Has(k)) || k == s
    {
      hide Rep, Balanced, NoSharing, Ordered, Size, Height;
      ghost var was := tree;
      var taller;
      root, r, taller, tree := InsertAVL(root, s, tree);
    }

    /** Building the tree from a list of words: it holds exactly those, one node for each, and stays
        balanced whatever the order. */
    method Load(patterns: seq<Str>)
      requires Valid() && root == Null && nodes == []
      modifies this
      ensures Valid() && |nodes| + 1 >= Fib(Height(tree) + 2)
      ensures forall k :: Has(k) <==> k in patterns
    {
      hide Rep, Balanced, NoSharing, Ordered, Size, Height, Stores, Fib;
      NothingStored();
      for i := 0 to |patterns|
        invariant Valid() && forall k :: Has(k) <==> k in patterns[..i]
      {
        var _ := Insert(patterns[i]);
        assert patterns[..i + 1] == patterns[..i] + [patterns[i]];
      }
      SizeBound(tree);
      assert patterns[..|patterns|] == patterns;
    }

    lemma NothingStored()
      requires Valid() && root == Null
      ensures forall k :: !Has(k)
    {
    }

    /** A search visits at most Height + 1 nodes, and a tree that high holds many keys. */
    method Search(word: Str) returns (found: bool, cmps: nat, ghost way: seq<Tree>)
      requires Valid()
      ensures found <==> Has(word)
      ensures WayTo(tree, word, way) && cmps == |way| && (Stores(tree, word) ==> cmps == DepthOf(tree, word) + 1)
      ensures cmps <= Height(tree) + 1 && |nodes| + 1 >= Fib(Height(tree) + 2)
    {
      hide Rep, Balanced, NoSharing, Ordered, Size, Fib;
      var q;
      q, cmps, way := SearchAVL(root, word, tree);
      SizeBound(tree);
      found := q != Null;
    }
  }
}
