/** RadixTree.h: inserting keys digit by digit, shrinking, and searching. */
module RadixSet {
  import opened Strings
  import opened Order
  import opened Tries
  import opened RadixDigits
  import opened RadixTrees
  import opened RadixGrowth
  import opened RadixShrink
  import opened RadixEdges

  class KeySet {
    var cells: seq<Cell<Radix>>
    var root: Link
    ghost var tree: RTree

    ghost predicate Valid()
      reads this
    {
      Rep(cells, root, tree) && Distinct(tree) && Good(tree) && !tree.Tip?
    }

    /** Keys may be inserted as long as the tree has not been shrunk. */
    ghost predicate Growing()
      reads this
    {
      Valid() && Full(tree, 0)
    }

    ghost predicate Has(k: Str)
      reads `tree
    {
      HasKey(tree, k)
    }

    constructor ()
      ensures Growing() && forall k :: !Has(k)
    {
      cells, root, tree := [], Null, Empty;
    }

    /** `branch += 1 << direction` at the node whose child the place is. */
    method Mark(div: Place, ghost c: Ctx<Radix>, ghost t: RTree)
      requires AtPlace(cells, root, div, c, t) && c.In? && c.k < 4 && !Bit(c.tag.branch, c.k)
      modifies `cells
      ensures |cells| == old(|cells|)
      ensures AtPlace(cells, root, div, c.(tag := c.tag.(branch := WithBit(c.tag.branch, c.k))), t)
    {
      hide Bit, Mask;
      Retagged(cells, root, div, c, t, c.tag.(branch := WithBit(c.tag.branch, c.k)));
      var p := cells[div.id];
      cells := cells[div.id := p.(tag := p.tag.(branch := p.tag.branch + Mask(div.k)))];
    }

    /** A string stored where there was none. */
    method StoreText(u: Str, div: Place, ghost c: Ctx<Radix>)
      requires AtPlace(cells, root, div, c, Empty)
      modifies `cells, `root
      ensures |cells| == old(|cells|) && AtPlace(cells, root, div, c, Tip(u))
    {
      Replaced(cells, root, div, c, Empty, Text(u), Tip(u));
      cells, root := StoreCells(cells, div, Text(u)), StoreRoot(root, div, Text(u));
    }

    /** A null pointer or a string is on the path: a new node takes its place. */
    method NewChild(u: Str, i: nat, j: nat, div: Place, ghost c: Ctx<Radix>, ghost t: RTree)
      returns (div': Place, ghost t': RTree)
      requires i < |u| && j < 4 && AtPlace(cells, root, div, c, t) && Ready(t, u, 4 * i + j) && !t.Fork?
      modifies `cells, `root
      ensures |cells| == old(|cells|) + 1 && t' == if 4 * i + j + 1 == 4 * |u| then Tip(u) else Empty
      ensures AtPlace(cells, root, div', NextCtx(c, t, u, 4 * i + j, old(|cells|)), t')
    {
      hide AtPlace, Ready, Bit, StoreCells, StoreRoot, WithBit, Digit, Direction;
      LookAt(cells, root, div, c, t);
      NextDigit(c, t, u, 4 * i + j, |cells|);
      var n := |cells|;
      var direction := Direction(DigitOfByte(u[i], j));
      DigitIsDirection(u, i, j);
      NewNode(cells, root, div, c, t, Radix(4 * i + j, 0), 4, direction);
      cells := cells + [Cell(Radix(4 * i + j, 0), Nulls(4))];
      cells, root := StoreCells(cells, div, Inner(n)), StoreRoot(root, div, Inner(n));
      div' := ChildOf(n, direction);
      t' := Empty;
      if i == |u| - 1 && j == 3 {
        NoBitYet(t, 4 * i + j, n, direction);
        Mark(div', In(c, n, Radix(4 * i + j, 0), Empties(4), direction), t');
        StoreText(u, div', NextCtx(c, t, u, 4 * i + j, n));
        t' := Tip(u);
      }
    }

    /** A node is on the path; at the last digit its mask says whether the key is there. */
    method OldChild(u: Str, i: nat, j: nat, div: Place, ghost c: Ctx<Radix>, ghost t: RTree)
      returns (div': Place, r: int, ghost t': RTree)
      requires i < |u| && j < 4 && AtPlace(cells, root, div, c, t) && Ready(t, u, 4 * i + j) && t.Fork?
      modifies `cells, `root
      ensures |cells| == old(|cells|)
      ensures var kid := NextTree(t, u, 4 * i + j, |cells|);
              t' == if 4 * i + j + 1 == 4 * |u| && kid.Empty? then Tip(u) else kid
      ensures AtPlace(cells, root, div', NextCtx(c, t, u, 4 * i + j, |cells|), t')
      ensures r == if 4 * i + j + 1 == 4 * |u| && Bit(t.tag.branch, Digit(u, 4 * i + j)) then 0 else 1
    {
      hide AtPlace, Ready, Bit, StoreCells, StoreRoot, WithBit, Digit, Direction;
      LookAt(cells, root, div, c, t);
      NextDigit(c, t, u, 4 * i + j, |cells|);
      var p := Read(cells, root, div);
      var direction := Direction(DigitOfByte(u[i], j));
      DigitIsDirection(u, i, j);
      ghost var d := In(c, t.id, t.tag, t.kids, direction);
      StepDown(cells, root, div, c, t, direction, t);
      div' := ChildOf(p.id, direction);
      t' := t.kids[direction];
      LookAt(cells, root, div', d, t');
      r := 1;
      if i == |u| - 1 && j == 3 {
        AlreadySet(t.tag.branch, direction);
        if Read(cells, root, div') == Null {
          NoBitYet(t, 4 * i + j, |cells|, direction);
          Mark(div', d, t');
          StoreText(u, div', NextCtx(c, t, u, 4 * i + j, |cells|));
          t' := Tip(u);
        } else if !Bit(cells[p.id].tag.branch, direction) {
          Mark(div', d, t');
        } else {
          r := 0;
        }
      }
    }

    /** The body of the loops of insert: digit `j` of byte `i`. */
    method InsertDigit(u: Str, i: nat, j: nat, div: Place, ghost c: Ctx<Radix>, ghost t: RTree)
      returns (div': Place, r: int, ghost c': Ctx<Radix>, ghost t': RTree)
      requires i < |u| && j < 4 && AtPlace(cells, root, div, c, t) && Ready(t, u, 4 * i + j)
      modifies `cells, `root
      ensures AtPlace(cells, root, div', c', t') && Ready(t', u, 4 * i + j + 1)
      ensures Plug(c', Grown(t', u, 4 * i + j + 1, |cells|)) == Plug(c, Grown(t, u, 4 * i + j, old(|cells|)))
      ensures 4 * i + j + 1 < 4 * |u| ==> (HasKey(t', u) <==> HasKey(t, u))
      ensures 4 * i + j + 1 == 4 * |u| ==> !t'.Empty? && r == if HasKey(t, u) then 0 else 1
    {
      hide AtPlace, Ready, Plug, HasKey, Bit, NextCtx, NextTree, Digit;
      LookAt(cells, root, div, c, t);
      NextDigit(c, t, u, 4 * i + j, |cells|);
      c' := NextCtx(c, t, u, 4 * i + j, |cells|);
      BareKid(t, u, 4 * i + j, |cells|);
      EndReady(u);
      r := 1;
      if Read(cells, root, div).Inner? {
        div', r, t' := OldChild(u, i, j, div, c, t);
      } else {
        div', t' := NewChild(u, i, j, div, c, t);
      }
    }

    /** insert, for keys that are not empty: 0 if the key is already there, 1 if it is new. */
    method Insert(u: Str) returns (r: int)
      requires Growing() && u != []
      modifies this
      ensures Growing() && r == if old(Has(u)) then 0 else 1
      ensures forall k :: Has(k) <==> old(Has(k)) || k == u
    {
      hide AtPlace, Rep, Distinct, Good, Full, Plug, HasKey, Ready, Grown, GrownKid;
      ghost var c: Ctx<Radix>, t: RTree := Top, tree;
      ghost var goal := Grown(tree, u, 0, |cells|);
      StartAtRoot(cells, root, tree);
      StartReady(tree, u, |cells|);
      var div := AtRoot;
      r := 1;
      for i := 0 to |u|
        invariant AtPlace(cells, root, div, c, t) && Ready(t, u, 4 * i) && Plug(c, Grown(t, u, 4 * i, |cells|)) == goal
        invariant if i < |u| then (HasKey(t, u) <==> old(Has(u))) else !t.Empty? && r == if old(Has(u)) then 0 else 1
        invariant tree == old(tree)
      {
        for j := 0 to 4
          invariant AtPlace(cells, root, div, c, t) && Ready(t, u, 4 * i + j)
          invariant Plug(c, Grown(t, u, 4 * i + j, |cells|)) == goal
          invariant if 4 * i + j < 4 * |u| then (HasKey(t, u) <==> old(Has(u)))
                    else !t.Empty? && r == if old(Has(u)) then 0 else 1
          invariant tree == old(tree)
        {
          div, r, c, t := InsertDigit(u, i, j, div, c, t);
        }
      }
      Finished(cells, root, div, c, t, u);
      tree := goal;
    }

    /** orphan: the only child of a node, or null. */
    method Orphan(n: nat, ghost t: RTree) returns (result: Link)
      requires n < |cells| && t.Fork? && |cells[n].child| == |t.kids| == 4
      requires forall k: nat :: k < 4 ==> (cells[n].child[k] == Null <==> t.kids[k].Empty?)
      ensures result == Null <==> !Only(t.kids, FirstKid(t.kids))
      ensures result != Null ==> result == cells[n].child[FirstKid(t.kids)]
    {
      result := Null;
      var num: nat := 0;
      ghost var first: nat, last: nat := 0, 0;
      for i := 0 to 4
        invariant num == 0 ==> forall j: nat :: j < i ==> t.kids[j].Empty?
        invariant num > 0 ==> first <= last < i && !t.kids[first].Empty? && !t.kids[last].Empty?
        invariant num > 0 ==> result != Null && result == cells[n].child[last]
        invariant num == 1 ==> forall j: nat :: j < i && j != last ==> t.kids[j].Empty?
        invariant num > 1 ==> first < last
      {
        if cells[n].child[i] != Null {
          first, last := if num == 0 then i else first, i;
          num, result := num + 1, cells[n].child[i];
        }
      }
      if num == 1 {
        OnlyIsFirst(t.kids, last);
      } else {
        assert num > 1 ==> !t.kids[first].Empty? && !t.kids[last].Empty?;
        result := Null;
      }
    }

    /** shrink, on the subtree at a place. */
    method ShrinkAt(div: Place, ghost c: Ctx<Radix>, ghost t: RTree)
      requires AtPlace(cells, root, div, c, t) && Good(t)
      modifies `cells, `root
      ensures AtPlace(cells, root, div, c, Shrunk(t)) && |cells| == old(|cells|)
      decreases t
    {
      hide AtPlace, Shrunk, KidGood, NodeGood, StoreCells, StoreRoot;
      LookAt(cells, root, div, c, t);
      var p := Read(cells, root, div);
      if !p.Inner? {
        NothingToShrink(t);
        return;
      }
      GoodKids(t);
      EmptyKids(cells, root, div, c, t);
      var child := Orphan(p.id, t);
      if child != Null && cells[p.id].tag.branch == 0 {
        ghost var k := FirstKid(t.kids);
        SkipApart(cells, root, div, c, t, k);
        Replaced(cells, root, div, c, t, child, t.kids[k]);
        cells, root := StoreCells(cells, div, child), StoreRoot(root, div, child);
        ShrinkAt(div, c, t.kids[k]);
        SkippedNode(t);
      } else {
        ShrinkChildren(p.id, div, c, t);
      }
    }

    /** The for loop of shrink. */
    method ShrinkChildren(n: nat, div: Place, ghost c: Ctx<Radix>, ghost t: RTree)
      requires AtPlace(cells, root, div, c, t) && t.Fork? && |t.kids| == 4 && n == t.id && !Skippable(t)
      requires forall d: nat :: d < 4 ==> Good(t.kids[d])
      modifies `cells, `root
      ensures AtPlace(cells, root, div, c, Shrunk(t)) && |cells| == old(|cells|)
      decreases t, 0
    {
      hide AtPlace, Shrunk, KidGood, NodeGood, Good;
      ghost var f := t;
      PlaceIs(cells, root, div, c, t);
      for i := 0 to 4
        invariant AtPlace(cells, root, div, c, f) && f.Fork? && f == t.(kids := f.kids) && |f.kids| == 4
        invariant |cells| == old(|cells|)
        invariant forall j: nat :: j < i ==> f.kids[j] == Shrunk(t.kids[j])
        invariant forall j: nat :: i <= j < 4 ==> f.kids[j] == t.kids[j]
      {
        EmptyKids(cells, root, div, c, f);
        if cells[n].child[i].Inner? {
          StepDown(cells, root, div, c, f, i, f);
          ghost var d := In(c, f.id, f.tag, f.kids, i);
          ShrinkAt(ChildOf(n, i), d, f.kids[i]);
          StepUp(cells, root, d, Shrunk(t.kids[i]));
          f := f.(kids := f.kids[i := Shrunk(t.kids[i])]);
        } else {
          NothingToShrink(t.kids[i]);
        }
      }
      KeptNode(t);
      assert f.kids == Shrunk(t).kids;
    }

    /** shrink on the whole tree: no key is lost or gained, and nothing more can be left out. */
    method Shrink()
      requires Valid()
      modifies this
      ensures Valid() && Compressed(tree) && forall k :: Has(k) <==> old(Has(k))
    {
      hide AtPlace, Rep, Distinct, Good, HasKey, Compressed, Shrunk;
      StartAtRoot(cells, root, tree);
      ShrinkKeeps(tree);
      ShrinkAt(AtRoot, Top, tree);
      tree := Shrunk(tree);
      LookAtRoot(cells, root, tree);
    }

    /** The inner loop of search_tree: down to the leftmost string below `q`. */
    method Leftmost(q: Link, ghost t: RTree) returns (s: Str)
      requires Rep(cells, q, t) && Good(t) && !t.Empty?
      ensures Stores(t, s)
    {
      hide NodeGood, KidGood;
      var q := q;
      ghost var f := t;
      while q.Inner?
        invariant Rep(cells, q, f) && Good(f) && !f.Empty? && forall x :: Stores(f, x) ==> Stores(t, x)
        decreases f
      {
        SomeKid(f);
        ghost var k := FirstKid(f.kids);
        var i := 0;
        while cells[q.id].child[i] == Null
          invariant 0 <= i <= k
          decreases k - i
        {
          i := i + 1;
        }
        FirstKidFound(f.kids, i);
        q := cells[q.id].child[i];
        f := f.kids[i];
      }
      s := q.s;
    }

    /** search_tree, shrunk or not. The byte that gives the direction is read before the position is
        compared with the length; behind the terminator it may be any byte (`behind`), which changes
        no answer. For the empty key the mask of the root decides. */
    method Search(u: Str) returns (found: bool, behind: bool)
      requires Valid()
      ensures u != [] ==> (found <==> Has(u)) && (behind <==> ReadsBehind(tree, u)) && (behind ==> !found)
      ensures u == [] ==> (found <==> RootMarked(tree)) && !behind
    {
      hide NodeGood, KidGood, Bit, Distinct, KeyAt, Digit, ReadsBehind;
      if |u| == 0 {
        return root != Null && cells[root.id].tag.branch != 0, false;
      }
      var p := root;
      ghost var t := tree;
      behind := false;
      while p.Inner?
        invariant Rep(cells, p, t) && Good(t) && (HasKey(t, u) <==> Has(u))
        invariant !behind && (ReadsBehind(t, u) <==> ReadsBehind(tree, u))
        decreases t
      {
        var pos := cells[p.id].tag.pos;
        GoodKids(t);
        SearchStep(t, u);
        BehindStep(t, u);
        var read: Byte := *;
        if pos / 4 <= |u| {
          read := Strings.At(u, pos / 4);
        } else {
          behind := true;
        }
        var direction := Direction(DigitOfByte(read, pos % 4));
        if pos >= 4 * |u| {
          return false, behind;
        }
        DigitIsDirection(u, pos / 4, pos % 4);
        if pos == 4 * |u| - 1 {
          if !Bit(cells[p.id].tag.branch, direction) {
            KeyNeedsBit(t, direction, u);
            return false, behind;
          }
          var s := LastString(u, p.id, direction, t);
          return StringCmp(u, s) == 0, behind;
        }
        p := cells[p.id].child[direction];
        t := t.kids[direction];
      }
      BehindStep(t, u);
      return false, behind;
    }

    /** The string search_tree compares with: the one stored, or the start of one further down. */
    method LastString(u: Str, n: nat, direction: nat, ghost t: RTree) returns (x: Str)
      requires Rep(cells, Inner(n), t) && Good(t) && t.Fork? && |t.kids| == 4 && direction < 4
      requires t.tag.pos == 4 * |u| - 1 && Bit(t.tag.branch, direction)
      ensures StringCmp(u, x) == 0 <==> KeyAt(t, direction, u)
    {
      hide NodeGood, KidGood, Bit, KeyAt, Digit;
      BitHasString(t, direction);
      var child := cells[n].child[direction];
      if child.Text? {
        LastDigit(t, direction, child.s, u);
        WholeString(t, direction, u);
        x := child.s;
      } else {
        var s := Leftmost(child, t.kids[direction]);
        LastDigit(t, direction, s, u);
        x := s[..|u|];
      }
      TotalOrder(u, x);
    }

    /** The program: insert all patterns, shrink, and then search. */
    method Load(patterns: seq<Str>)
      requires Growing() && (forall k :: !Has(k)) && forall i :: 0 <= i < |patterns| ==> patterns[i] != []
      modifies this
      ensures Valid() && Compressed(tree) && forall k :: Has(k) <==> k in patterns
    {
      hide Rep, Distinct, Good, HasKey, Full, Compressed;
      for i := 0 to |patterns|
        invariant Growing() && forall k :: Has(k) <==> k in patterns[..i]
      {
        var _ := Insert(patterns[i]);
        assert patterns[..i + 1] == patterns[..i] + [patterns[i]];
      }
      Shrink();
    }
  }
}
