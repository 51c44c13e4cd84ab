/** RadixTree.h shrink: nodes with one child and no key are left out. The stored keys stay. */
module RadixShrink {
  import opened Tries
  import opened RadixDigits
  import opened RadixTrees

  /** `k` is the only child, the answer of `orphan`. */
  ghost predicate Only(kids: seq<RTree>, k: nat) {
    k < |kids| && !kids[k].Empty? && forall j :: 0 <= j < |kids| && j != k ==> kids[j].Empty?
  }

  ghost predicate Skippable(t: RTree) {
    t.Fork? && t.tag.branch == 0 && Only(t.kids, FirstKid(t.kids))
  }

  ghost function Shrunk(t: RTree): RTree {
    if Skippable(t) then Shrunk(t.kids[FirstKid(t.kids)])
    else if t.Fork? && |t.kids| == 4 then
      t.(kids := [Shrunk(t.kids[0]), Shrunk(t.kids[1]), Shrunk(t.kids[2]), Shrunk(t.kids[3])])
    else t
  }

  /** No node is left that shrink could take out. */
  ghost predicate Compressed(t: RTree) {
    !Skippable(t) && (t.Fork? ==> forall k: nat :: k < |t.kids| ==> Compressed(t.kids[k]))
  }

  lemma OnlyIsFirst(kids: seq<RTree>, k: nat)
    requires Only(kids, k)
    ensures FirstKid(kids) == k
  {
    FirstKidFound(kids, k);
  }

  /** Everything a caller may ask of a shrunk subtree. */
  ghost predicate SameKeys(t: RTree, t': RTree) {
    && Good(t')
    && (forall s :: Stores(t', s) <==> Stores(t, s))
    && (forall k :: HasKey(t', k) <==> HasKey(t, k))
    && (t'.Empty? <==> t.Empty?) && (t.Tip? ==> t' == t)
    && (t.Fork? ==> t'.Fork? && t'.tag.pos >= t.tag.pos)
  }

  /** A node without keys and with one child can be left out. */
  lemma SkipKeeps(t: RTree, k: nat)
    requires Good(t) && t.Fork? && t.tag.branch == 0 && |t.kids| == 4 && Only(t.kids, k)
    ensures t.kids[k].Fork? && SameKeys(t, t.kids[k])
  {
    hide Agree, Bit, Digit;
    forall d: nat | d < 4
      ensures !Bit(t.tag.branch, d)
    {
      NoBits(t.tag.branch, d);
    }
    assert KidGood(t, k);
    hide KidGood, NodeGood;
    forall s
      ensures Stores(t, s) <==> Stores(t.kids[k], s)
      ensures HasKey(t, s) <==> HasKey(t.kids[k], s)
    {
      assert forall d: nat :: d < 4 && d != k ==> !Stores(t.kids[d], s) && !HasKey(t.kids[d], s);
    }
  }

  /** The node with its children replaced by others that hold the same keys. */
  lemma KidsKeep(t: RTree, t': RTree)
    requires Good(t) && t.Fork? && |t.kids| == 4 && t'.Fork? && |t'.kids| == 4 && t'.tag == t.tag
    requires forall d: nat :: d < 4 ==> SameKeys(t.kids[d], t'.kids[d])
    ensures SameKeys(t, t')
  {
    hide Agree, Bit, Digit, KidGood;
    forall d: nat | d < 4
      ensures KidGood(t', d)
    {
      KidKeeps(t, t', d);
    }
    forall s
      ensures Stores(t', s) <==> Stores(t, s)
    {
      assert forall d: nat :: d < 4 ==> (Stores(t'.kids[d], s) <==> Stores(t.kids[d], s));
    }
    var e: nat :| e < 4 && !t.kids[e].Empty?;
    assert SameKeys(t.kids[e], t'.kids[e]);
    KidsKeepKeys(t, t');
  }

  lemma KidKeeps(t: RTree, t': RTree, d: nat)
    requires t.Fork? && |t.kids| == 4 && t'.Fork? && |t'.kids| == 4 && t'.tag == t.tag && d < 4
    requires KidGood(t, d) && SameKeys(t.kids[d], t'.kids[d])
    ensures KidGood(t', d)
  {
  }

  lemma KidsKeepKeys(t: RTree, t': RTree)
    requires t.Fork? && |t.kids| == 4 && t'.Fork? && |t'.kids| == 4 && t'.tag == t.tag
    requires forall d: nat :: d < 4 ==> SameKeys(t.kids[d], t'.kids[d])
    ensures forall k :: HasKey(t', k) <==> HasKey(t, k)
  {
    hide Good, Bit;
    forall k
      ensures HasKey(t', k) <==> HasKey(t, k)
    {
      forall d: nat | d < 4
        ensures KeyAt(t', d, k) <==> KeyAt(t, d, k)
        ensures HasKey(t'.kids[d], k) <==> HasKey(t.kids[d], k)
      {
        assert SameKeys(t.kids[d], t'.kids[d]);
      }
    }
  }

  /** Shrinking keeps every key and every stored string, and leaves nothing more to shrink. */
  lemma {:induction false} ShrinkKeeps(t: RTree)
    requires Good(t)
    ensures SameKeys(t, Shrunk(t)) && Compressed(Shrunk(t))
  {
    hide KidGood, NodeGood, KeyAt;
    if Skippable(t) {
      var k := FirstKid(t.kids);
      GoodKids(t);
      SkipKeeps(t, k);
      ShrinkKeeps(t.kids[k]);
    } else if t.Fork? {
      GoodKids(t);
      var t' := Shrunk(t);
      forall d: nat | d < 4
        ensures SameKeys(t.kids[d], t'.kids[d]) && Compressed(t'.kids[d])
      {
        ShrinkKeeps(t.kids[d]);
      }
      KidsKeep(t, t');
      StillNeeded(t, t');
    }
  }

  lemma GoodKids(t: RTree)
    requires Good(t) && t.Fork?
    ensures |t.kids| == 4 && forall d: nat :: d < 4 ==> Good(t.kids[d])
  {
  }

  lemma StillNeeded(t: RTree, t': RTree)
    requires t.Fork? && |t.kids| == 4 && t'.Fork? && |t'.kids| == 4 && t'.tag == t.tag && !Skippable(t)
    requires forall d: nat :: d < 4 ==> (t'.kids[d].Empty? <==> t.kids[d].Empty?)
    ensures !Skippable(t')
  {
    if Skippable(t') {
      OnlyIsFirst(t.kids, FirstKid(t'.kids));
    }
  }

  // ---- at a place ----

  /** A node that can be left out, and its only child. */
  lemma SkipApart(cells: seq<Cell<Radix>>, root: Link, w: Place, c: Ctx<Radix>, t: RTree, k: nat)
    requires AtPlace(cells, root, w, c, t) && t.Fork? && k < |t.kids|
    ensures t.id < |cells| && k < |cells[t.id].child|
    ensures Apart(c, t.kids[k]) && Rep(cells, cells[t.id].child[k], t.kids[k])
  {
  }

  lemma EmptyKids(cells: seq<Cell<Radix>>, root: Link, w: Place, c: Ctx<Radix>, t: RTree)
    requires AtPlace(cells, root, w, c, t) && t.Fork?
    ensures t.id < |cells| && |cells[t.id].child| == |t.kids|
    ensures forall k: nat :: k < |t.kids| ==> (cells[t.id].child[k] == Null <==> t.kids[k].Empty?)
    ensures forall k: nat :: k < |t.kids| ==> (cells[t.id].child[k].Inner? <==> t.kids[k].Fork?)
  {
    hide Apart, CtxRep;
    assert forall k :: 0 <= k < |t.kids| ==> Rep(cells, cells[t.id].child[k], t.kids[k]);
  }

  /** A node that is kept: its children shrink one after the other. */
  lemma KeptNode(t: RTree)
    requires !Skippable(t)
    ensures t.Fork? && |t.kids| == 4 ==>
              && Shrunk(t).Fork? && Shrunk(t).id == t.id && Shrunk(t).tag == t.tag && |Shrunk(t).kids| == 4
              && forall k: nat :: k < 4 ==> Shrunk(t).kids[k] == Shrunk(t.kids[k])
    ensures !t.Fork? ==> Shrunk(t) == t
  {
  }

  lemma SkippedNode(t: RTree)
    requires Skippable(t)
    ensures FirstKid(t.kids) < |t.kids| && Shrunk(t) == Shrunk(t.kids[FirstKid(t.kids)])
  {
  }

  lemma NothingToShrink(t: RTree)
    ensures !t.Fork? ==> Shrunk(t) == t
  {
  }

  lemma PlaceIs(cells: seq<Cell<Radix>>, root: Link, w: Place, c: Ctx<Radix>, t: RTree)
    requires AtPlace(cells, root, w, c, t)
    ensures w == PlaceOf(c)
  {
  }

  lemma LookAtRoot(cells: seq<Cell<Radix>>, root: Link, t: RTree)
    requires AtPlace(cells, root, AtRoot, Top, t)
    ensures Rep(cells, root, t) && Distinct(t)
  {
  }
}
