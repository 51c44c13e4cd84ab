/** PATRICA.h: the crit-bit tree as a set of strings. */
module CritBit {
  import opened Strings
  import opened Order
  import opened Tries
  import opened CritBits
  import opened CritTrees

  class StringSet {
    var cells: seq<Cell<Crit>>
    var root: Link
    ghost var tree: CritTree

    ghost predicate Valid()
      reads this
    {
      && Rep(cells, root, tree) && Distinct(tree) && Forks(tree) == |cells|
      && (tree.Empty? || Good(tree))
    }

    ghost predicate Has(u: Str)
      reads `tree
    {
      Stores(tree, u)
    }

    constructor ()
      ensures Valid() && forall u :: !Has(u)
    {
      cells, root, tree := [], Null, Empty;
    }

    /** The walk both functions start with. It looks at no bit of the key twice. */
    method Walk(u: Str) returns (p: Link, cmps: nat)
      requires Valid() && root != Null
      ensures p == Text(Reached(tree, u)) && NulFree(p.s) && cmps == NodesAbove(tree, p.s) <= 8 * (|p.s| + 1)
    {
      hide NulFree, Decides, Direction, BitNumber, Distinct, Forks;
      p, cmps := root, 0;
      ghost var t := tree;
      while p.Inner?
        invariant Rep(cells, p, t) && Good(t) && Reached(t, u) == Reached(tree, u)
        invariant cmps + NodesAbove(t, Reached(tree, u)) == NodesAbove(tree, Reached(tree, u))
        invariant if t.Fork? then cmps <= BitNumber(t.tag) else cmps <= 8 * (|Reached(tree, u)| + 1)
        decreases t
      {
        WalkStep(t, u);
        AboveStep(t, u);
        cmps := cmps + 1;
        var q := cells[p.id];
        var c := if q.tag.byte < |u| then u[q.tag.byte] else 0;
        var direction := Index(Direction(q.tag.otherbits, c));
        SideComputed(u, q.tag);
        p := q.child[direction];
        t := t.kids[direction];
      }
    }

    /** contains, with the number of nodes it visits: those above the string the walk ends at, which is `u`
        itself on a hit. They are at most the bits of that string and its terminator. */
    method Contains(u: Str) returns (r: bool, cmps: nat)
      requires Valid()
      ensures r <==> Has(u)
      ensures r ==> Good(tree) && cmps == NodesAbove(tree, u) <= 8 * (|u| + 1)
      ensures if tree.Empty? then cmps == 0
              else Has(Reached(tree, u)) && cmps == NodesAbove(tree, Reached(tree, u)) <= 8 * (|Reached(tree, u)| + 1)
      ensures cmps == 0 || exists s :: Has(s) && cmps <= 8 * (|s| + 1)
    {
      if root == Null {
        return false, 0;
      }
      var p;
      p, cmps := Walk(u);
      WalkDecides(tree, u);
      ReachedIsStored(tree, u);
      assert Has(p.s);
      TotalOrder(u, p.s);
      r := StringCmp(u, p.s) == 0;
    }

    /** The first byte in which `u` and the string found differ, and how; none if they are equal. */
    method FirstDifference(p: Str, u: Str) returns (same: bool, newbyte: nat, d: Byte)
      requires NulFree(p) && NulFree(u)
      ensures same <==> p == u
      ensures !same ==> newbyte <= |p| && d == ByteAt(p, newbyte) ^ ByteAt(u, newbyte) && d != 0
      ensures !same ==> forall j :: 0 <= j < newbyte ==> ByteAt(p, j) == ByteAt(u, j)
    {
      newbyte, d := 0, 0;
      while newbyte < |u|
        invariant newbyte <= |u| && newbyte <= |p| && p[..newbyte] == u[..newbyte]
        invariant forall j :: 0 <= j < newbyte ==> ByteAt(p, j) == ByteAt(u, j)
      {
        if At(p, newbyte) != u[newbyte] {
          return false, newbyte, At(p, newbyte) ^ u[newbyte];
        }
        newbyte := newbyte + 1;
      }
      if At(p, newbyte) != 0 {
        return false, newbyte, At(p, newbyte);
      }
      same := true;
    }

    /** insert: 1 if the string is already there, 2 if it is new. */
    method Insert(u: Str) returns (r: int)
      requires Valid() && NulFree(u)
      modifies this
      ensures Valid() && r == if old(Has(u)) then 1 else 2
      ensures |InOrder(tree)| == old(|InOrder(tree)|) + if r == 2 then 1 else 0
      ensures forall s :: Has(s) <==> old(Has(s)) || s == u
    {
      hide Good, Distinct, Reached;
      hide MaskOf, Direction, Differs, SideAt;
      GoodIsNotEmpty(tree);
      if root == Null {
        root, tree := Text(u), Tip(u);
        FirstString(u);
        return 2;
      }
      NodeCount();
      hide Rep, Stores, Forks, InOrder;
      var p, _ := Walk(u);
      WalkDecides(tree, u);
      var same, newbyte, d := FirstDifference(p.s, u);
      if same {
        return 1;
      }
      var crit := Crit(newbyte, MaskOf(d));
      DifferenceFound(tree, u, newbyte, d);
      var newdirection := Index(Direction(crit.otherbits, At(p.s, newbyte)));
      Splice(u, crit, newdirection);
      NodeCount();
      return 2;
    }

    /** The last loop of insert: down from the root to the place of the new critical bit. */
    method FindPlace(u: Str, crit: Crit) returns (wherep: Place, ghost c: Ctx<Crit>, ghost t: CritTree)
      requires Valid() && Good(tree)
      ensures AtPlace(cells, root, wherep, c, t) && Good(t) && (t.Fork? ==> Earlier(crit, t.tag))
      ensures forall n :: Plug(c, Grown(t, u, crit, n)) == Grown(tree, u, crit, n)
    {
      hide Rep, Good, Distinct, Grown, AtPlace, Plug, SideAt, Direction;
      wherep := AtRoot;
      c, t := Top, tree;
      StartAtRoot(cells, root, tree);
      PlugTop();
      while true
        invariant AtPlace(cells, root, wherep, c, t) && Good(t)
        invariant forall n :: Plug(c, Grown(t, u, crit, n)) == Grown(tree, u, crit, n)
        decreases t
      {
        LookAt(cells, root, wherep, c, t);
        var p := Read(cells, root, wherep);
        if !p.Inner? {
          break;
        }
        var q := cells[p.id];
        if q.tag.byte > crit.byte {
          break;
        }
        if q.tag.byte == crit.byte && q.tag.otherbits > crit.otherbits {
          break;
        }
        var b := if q.tag.byte < |u| then u[q.tag.byte] else 0;
        var direction := Index(Direction(q.tag.otherbits, b));
        SideComputed(u, q.tag);
        GrowthStep(cells, root, wherep, c, t, u, crit);
        wherep := ChildOf(p.id, direction);
        c := In(c, t.id, t.tag, t.kids, direction);
        t := t.kids[direction];
      }
    }

    /** The end of insert: a new node, with `u` on its side, takes the place found. */
    method Splice(u: Str, crit: Crit, newdirection: nat)
      requires Valid() && Good(tree) && Differs(tree, u, crit) && newdirection == Index(!SideAt(u, crit))
      modifies this
      ensures Valid() && !tree.Empty? && |cells| == old(|cells|) + 1
      ensures forall s :: Has(s) <==> old(Has(s)) || s == u
    {
      hide Rep, Good, Distinct, Stores, Grown, AtPlace, Plug, Forks, Differs, SideAt, Direction, StoreCells,
           StoreRoot, Earlier;
      var newnode := Cell(crit, [Null, Null][1 - newdirection := Text(u)]);
      ghost var n := |cells|;
      var wherep, c, t := FindPlace(u, crit);
      LookAt(cells, root, wherep, c, t);
      newnode := newnode.(child := newnode.child[newdirection := Read(cells, root, wherep)]);
      Spliced(cells, root, wherep, c, t, u, crit, newnode);
      cells := cells + [newnode];
      cells, root := StoreCells(cells, wherep, Inner(|cells| - 1)), StoreRoot(root, wherep, Inner(|cells| - 1));
      GrownTree(tree, u, crit, n);
      tree := Grown(tree, u, crit, n);
      GoodIsNotEmpty(tree);
    }

    /** Filling the tree with a list of strings; the count of new ones is the program's node count. */
    method Load(patterns: seq<Str>) returns (stored: nat)
      requires Valid() && root == Null && forall i :: 0 <= i < |patterns| ==> NulFree(patterns[i])
      modifies this
      ensures Valid() && forall s :: Has(s) <==> s in patterns
      ensures stored == |InOrder(tree)| && |cells| == if stored == 0 then 0 else stored - 1
    {
      hide Rep, Good, Distinct, Stores, InOrder, Forks, NulFree;
      stored := 0;
      NothingStored();
      for i := 0 to |patterns|
        invariant Valid() && (forall s :: Has(s) <==> s in patterns[..i])
        invariant stored == |InOrder(tree)|
      {
        var r := Insert(patterns[i]);
        if r == 2 {
          stored := stored + 1;
        }
        assert patterns[..i + 1] == patterns[..i] + [patterns[i]];
      }
      NodeCount();
    }

    lemma NothingStored()
      requires Valid() && root == Null
      ensures InOrder(tree) == [] && forall s :: !Has(s)
    {
    }

    /** There is one node fewer than there are strings. */
    lemma NodeCount()
      requires Valid()
      ensures |cells| == if tree.Empty? then 0 else |InOrder(tree)| - 1
      ensures InOrder(tree) == [] <==> tree.Empty?
    {
      if !tree.Empty? {
        NodesAndStrings(tree);
      }
    }

    /** The left-to-right traversal lists the set in strictly ascending string_cmp order. */
    lemma Traversal()
      requires Valid()
      ensures forall i, j :: 0 <= i < j < |InOrder(tree)| ==> Less(InOrder(tree)[i], InOrder(tree)[j])
      ensures forall s :: s in InOrder(tree) <==> Has(s)
    {
      if !tree.Empty? {
        InOrderAscends(tree);
      }
    }
  }
}
