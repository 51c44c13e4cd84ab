/** RadixTree.h insert: one node per digit; what a new key changes. */
module RadixGrowth {
  import opened Strings
  import opened Tries
  import opened RadixDigits
  import opened RadixTrees

  /** Before it is shrunk, the tree has a node for every digit. */
  ghost predicate Full(t: RTree, d: nat) {
    match t
    case Empty => true
    case Tip(s) => 4 * |s| == d
    case Fork(_, tag, kids) => |kids| == 4 && tag.pos == d && forall k: nat :: k < 4 ==> Full(kids[k], d + 1)
  }

  /** The bit for the last digit of `u`, unless it is set. */
  function MarkedTag(tag: Radix, u: Str, d: nat): Radix
    requires d < 4 * |u|
  {
    var k := Digit(u, d);
    if d + 1 == 4 * |u| then tag.(branch := WithBit(tag.branch, k)) else tag
  }

  /** The node at depth `d`: the one that is there, or a new one in place of null or a string. */
  ghost function NodeAt(t: RTree, d: nat, n: nat): RTree {
    if t.Fork? then t else Fork(n, Radix(d, 0), Empties(4))
  }

  /** The tree at depth `d` after inserting `u`; new nodes are numbered from `n`. */
  ghost function Grown(t: RTree, u: Str, d: nat, n: nat): RTree
    decreases 4 * |u| - d
  {
    if d >= 4 * |u| then (if t.Empty? then Tip(u) else t)
    else
      var b := NodeAt(t, d, n);
      var k := Digit(u, d);
      if k >= |b.kids| then t
      else Fork(b.id, MarkedTag(b.tag, u, d), b.kids[k := Grown(b.kids[k], u, d + 1, if t.Fork? then n else n + 1)])
  }

  /** All strings below agree with `u` so far. */
  ghost predicate OnPath(t: RTree, u: Str, d: nat) {
    forall s :: Stores(t, s) ==> Agree(s, u, d)
  }

  /** Some string below has `u` as a prefix. */
  ghost predicate Covers(t: RTree, u: Str) {
    exists s :: Stores(t, s) && u <= s
  }

  ghost predicate Ready(t: RTree, u: Str, d: nat) {
    Good(t) && Full(t, d) && OnPath(t, u, d) && d <= 4 * |u|
  }

  /** What the subtree on the path of `u` becomes. */
  ghost predicate GrownKid(t: RTree, g: RTree, u: Str, d: nat) {
    && Good(g) && Full(g, d) && Covers(g, u)
    && (forall s :: Stores(g, s) ==> Stores(t, s) || s == u)
    && (d < 4 * |u| ==> g.Fork?) && (d == 4 * |u| ==> g == if t.Empty? then Tip(u) else t)
    && (forall k :: HasKey(g, k) <==> HasKey(t, k) || (d < 4 * |u| && k == u))
  }

  lemma NodeAtReady(t: RTree, u: Str, d: nat, n: nat)
    requires Ready(t, u, d) && d < 4 * |u|
    ensures var b := NodeAt(t, d, n);
            && b.Fork? && NodeGood(b) && b.tag.pos == d && OnPath(b, u, d)
            && (forall k: nat :: k < 4 ==> Good(b.kids[k]) && Full(b.kids[k], d + 1))
            && (forall k :: HasKey(b, k) <==> HasKey(t, k))
            && (forall s :: Stores(b, s) ==> Stores(t, s))
  {
  }

  lemma KidReady(b: RTree, u: Str, d: nat)
    requires b.Fork? && NodeGood(b) && b.tag.pos == d < 4 * |u| && OnPath(b, u, d)
    requires forall k: nat :: k < 4 ==> Good(b.kids[k]) && Full(b.kids[k], d + 1)
    ensures Ready(b.kids[Digit(u, d)], u, d + 1)
  {
    var k := Digit(u, d);
    forall s | Stores(b.kids[k], s)
      ensures Agree(s, u, d + 1)
    {
      TextDigit(b, k, s);
      assert Agree(s, u, d);
    }
  }

  /** The node on the path of `u` with its child grown. */
  ghost function Put(b: RTree, u: Str, g: RTree): RTree
    requires b.Fork? && |b.kids| == 4 && b.tag.pos < 4 * |u|
  {
    Fork(b.id, MarkedTag(b.tag, u, b.tag.pos), b.kids[Digit(u, b.tag.pos) := g])
  }

  ghost predicate PutStep(b: RTree, u: Str, g: RTree) {
    && b.Fork? && NodeGood(b) && b.tag.pos < 4 * |u| && OnPath(b, u, b.tag.pos)
    && (forall k: nat :: k < 4 ==> Good(b.kids[k]))
    && GrownKid(b.kids[Digit(u, b.tag.pos)], g, u, b.tag.pos + 1)
  }

  lemma PutBits(b: RTree, u: Str, g: RTree, k: nat)
    requires b.Fork? && |b.kids| == 4 && b.tag.pos < 4 * |u| && k < 4
    ensures Put(b, u, g).tag.pos == b.tag.pos
    ensures Bit(Put(b, u, g).tag.branch, k) <==>
              Bit(b.tag.branch, k) || (b.tag.pos + 1 == 4 * |u| && k == Digit(u, b.tag.pos))
  {
  }

  lemma PutNarrow(b: RTree, u: Str, g: RTree)
    requires b.Fork? && |b.kids| == 4 && b.tag.pos < 4 * |u| && b.tag.branch < 16
    ensures Put(b, u, g).tag.pos == b.tag.pos && Put(b, u, g).tag.branch < 16
  {
    hide Digit;
  }

  lemma PutStores(b: RTree, u: Str, g: RTree, s: Str)
    requires PutStep(b, u, g) && Stores(Put(b, u, g), s)
    ensures Stores(b, s) || s == u
  {
  }

  lemma PutKidGood(b: RTree, u: Str, g: RTree, k: nat)
    requires PutStep(b, u, g) && k < 4
    ensures KidGood(Put(b, u, g), k)
  {
    hide HasKey, Agree, Bit;
    assert KidGood(b, k);
    PutBits(b, u, g, k);
    hide MarkedTag;
  }

  lemma PutAgrees(b: RTree, u: Str, g: RTree, s: Str, s': Str)
    requires PutStep(b, u, g) && Stores(Put(b, u, g), s) && Stores(Put(b, u, g), s')
    ensures Agree(s, s', b.tag.pos)
  {
    PutStores(b, u, g, s);
    PutStores(b, u, g, s');
    hide GrownKid, MarkedTag, Put, Good, Stores;
    assert Agree(u, u, b.tag.pos);
  }

  lemma PutGood(b: RTree, u: Str, g: RTree)
    requires PutStep(b, u, g)
    ensures Good(Put(b, u, g)) && Covers(Put(b, u, g), u)
  {
    hide Agree, Bit, MarkedTag, HasKey, KidGood;
    var f := Put(b, u, g);
    PutNarrow(b, u, g);
    forall k: nat | k < 4
      ensures KidGood(f, k)
    {
      PutKidGood(b, u, g, k);
    }
    PutNarrow(b, u, g);
    forall s, s' | Stores(f, s) && Stores(f, s')
      ensures Agree(s, s', f.tag.pos)
    {
      PutAgrees(b, u, g, s, s');
    }
    var d := Digit(u, b.tag.pos);
    assert f.kids[d] == g && !g.Empty?;
    var s :| Stores(g, s) && u <= s;
    assert Stores(f, s);
  }

  /** A key that ends at the node on the path of `u` is a prefix of `u`. */
  lemma PathPrefix(b: RTree, u: Str, s: Str, k: Str)
    requires b.Fork? && NodeGood(b) && 4 * |k| == b.tag.pos + 1 <= 4 * |u| && OnPath(b, u, b.tag.pos)
    requires Stores(b.kids[Digit(u, b.tag.pos)], s)
    ensures k <= s <==> k <= u
  {
    TextDigit(b, Digit(u, b.tag.pos), s);
    assert Agree(s, u, b.tag.pos);
    assert Agree(s, u, b.tag.pos + 1);
    AgreeIsPrefix(s, u, |k|);
  }

  lemma KeyOnPath(b: RTree, u: Str, k: Str)
    requires b.Fork? && NodeGood(b) && 4 * |k| == b.tag.pos + 1 <= 4 * |u| && OnPath(b, u, b.tag.pos)
    requires forall d: nat :: d < 4 ==> Good(b.kids[d])
    ensures var d := Digit(u, b.tag.pos); KeyAt(b, d, k) <==> Bit(b.tag.branch, d) && k <= u
  {
    hide Agree, Bit, Good;
    var d := Digit(u, b.tag.pos);
    assert KidGood(b, d);
    if Bit(b.tag.branch, d) {
      var s := SomeText(b.kids[d]);
      PathPrefix(b, u, s, k);
    }
    if s :| Stores(b.kids[d], s) && k <= s {
      PathPrefix(b, u, s, k);
    }
  }

  /** Which keys end at the node afterwards. */
  lemma PutKeyAt(b: RTree, u: Str, g: RTree, e: nat, k: Str)
    requires PutStep(b, u, g) && e < 4
    ensures KeyAt(Put(b, u, g), e, k) <==>
              KeyAt(b, e, k) || (b.tag.pos + 1 == 4 * |u| && e == Digit(u, b.tag.pos) && k == u)
  {
    hide HasKey, Bit, MarkedTag, Agree, KidGood;
    var f := Put(b, u, g);
    PutBits(b, u, g, e);
    PutGood(b, u, g);
    assert e != Digit(u, b.tag.pos) ==> f.kids[e] == b.kids[e];
    if 4 * |k| == b.tag.pos + 1 && e == Digit(u, b.tag.pos) {
      KeyOnPath(b, u, k);
      forall s | Stores(f, s)
        ensures Agree(s, u, f.tag.pos)
      {
        PutStores(b, u, g, s);
      }
      KeyOnPath(f, u, k);
    }
  }

  lemma PutHasKey(b: RTree, u: Str, g: RTree, k: Str)
    requires PutStep(b, u, g)
    ensures HasKey(Put(b, u, g), k) <==> HasKey(b, k) || k == u
  {
    hide KeyAt, Bit, MarkedTag, Agree, KidGood, Good, Stores;
    var f := Put(b, u, g);
    var d := Digit(u, b.tag.pos);
    forall e: nat | e < 4
      ensures KeyAt(f, e, k) <==> KeyAt(b, e, k) || (b.tag.pos + 1 == 4 * |u| && e == d && k == u)
      ensures HasKey(f.kids[e], k) <==> HasKey(b.kids[e], k) || (b.tag.pos + 1 < 4 * |u| && e == d && k == u)
    {
      PutKeyAt(b, u, g, e, k);
    }
    if HasKey(b, k) || k == u {
      if e: nat :| e < 4 && KeyAt(b, e, k) {
        assert KeyAt(f, e, k);
      } else if e: nat :| e < 4 && HasKey(b.kids[e], k) {
        assert HasKey(f.kids[e], k);
      } else if b.tag.pos + 1 == 4 * |u| {
        assert KeyAt(f, d, k);
      } else {
        assert HasKey(f.kids[d], k);
      }
    }
  }

  /** The subtree at the end of the path of `u`. */
  lemma PathEnds(t: RTree, u: Str)
    requires Ready(t, u, 4 * |u|)
    ensures GrownKid(t, if t.Empty? then Tip(u) else t, u, 4 * |u|)
  {
    if !t.Empty? {
      var s := SomeText(t);
      assert Agree(s, u, 4 * |u|);
      AgreeIsPrefix(s, u, |u|);
      assert u <= s;
    } else {
      assert Stores<Radix>(Tip(u), u);
    }
  }

  lemma PutIsGrown(t: RTree, u: Str, d: nat, g: RTree, n: nat)
    requires Ready(t, u, d) && d < 4 * |u|
    requires PutStep(NodeAt(t, d, n), u, g) && NodeAt(t, d, n).tag.pos == d
    requires forall k: nat :: k < 4 ==> Full(NodeAt(t, d, n).kids[k], d + 1)
    requires forall k :: HasKey(NodeAt(t, d, n), k) <==> HasKey(t, k)
    requires forall s :: Stores(NodeAt(t, d, n), s) ==> Stores(t, s)
    ensures GrownKid(t, Put(NodeAt(t, d, n), u, g), u, d)
  {
    var b := NodeAt(t, d, n);
    hide Agree, Bit, KidGood, KeyAt, MarkedTag, HasKey, NodeAt, Good, Stores, Ready;
    PutGood(b, u, g);
    PutNarrow(b, u, g);
    forall s | Stores(Put(b, u, g), s)
      ensures Stores(b, s) || s == u
    {
      PutStores(b, u, g, s);
    }
    forall k
      ensures HasKey(Put(b, u, g), k) <==> HasKey(b, k) || k == u
    {
      PutHasKey(b, u, g, k);
    }
  }

  /** Inserting `u` keeps the tree in order and adds exactly the key `u`. */
  lemma {:induction false} GrownIsGood(t: RTree, u: Str, d: nat, n: nat)
    requires Ready(t, u, d)
    ensures GrownKid(t, Grown(t, u, d, n), u, d)
    decreases 4 * |u| - d
  {
    hide Agree, Bit, MarkedTag, KidGood, KeyAt, HasKey, Good, Stores, OnPath, GrownKid;
    if d == 4 * |u| {
      PathEnds(t, u);
    } else {
      var b := NodeAt(t, d, n);
      NodeAtReady(t, u, d, n);
      KidReady(b, u, d);
      var m := if t.Fork? then n else n + 1;
      var g := Grown(b.kids[Digit(u, d)], u, d + 1, m);
      GrownIsGood(b.kids[Digit(u, d)], u, d + 1, m);
      PutIsGrown(t, u, d, g, n);
    }
  }

  // ---- one digit of the walk ----

  /** The context one digit further down. */
  ghost function NextCtx(c: Ctx<Radix>, t: RTree, u: Str, d: nat, n: nat): Ctx<Radix>
    requires d < 4 * |u|
  {
    var b := NodeAt(t, d, n);
    if b.Fork? then In(c, b.id, MarkedTag(b.tag, u, d), b.kids, Digit(u, d)) else c
  }

  ghost function NextTree(t: RTree, u: Str, d: nat, n: nat): RTree
    requires d < 4 * |u|
  {
    var b := NodeAt(t, d, n);
    if |b.kids| == 4 then b.kids[Digit(u, d)] else t
  }

  /** Going down one digit changes neither what is left to do nor the answer. */
  lemma NextDigit(c: Ctx<Radix>, t: RTree, u: Str, d: nat, n: nat)
    requires Ready(t, u, d) && d < 4 * |u|
    ensures Good(t) && NodeAt(t, d, n).Fork? && |NodeAt(t, d, n).kids| == 4 && Ready(NextTree(t, u, d, n), u, d + 1)
    ensures Plug(NextCtx(c, t, u, d, n), Grown(NextTree(t, u, d, n), u, d + 1, if t.Fork? then n else n + 1))
         == Plug(c, Grown(t, u, d, n))
    ensures d + 1 < 4 * |u| ==>
              && (HasKey(t, u) <==> HasKey(NextTree(t, u, d, n), u))
              && MarkedTag(NodeAt(t, d, n).tag, u, d) == NodeAt(t, d, n).tag
    ensures d + 1 == 4 * |u| ==> (HasKey(t, u) <==> t.Fork? && Bit(t.tag.branch, Digit(u, d)))
  {
    hide Agree, Bit, KidGood, Digit, WithBit, KeyAt;
    NodeAtReady(t, u, d, n);
    KidReady(NodeAt(t, d, n), u, d);
    if t.Fork? {
      SearchStep(t, u);
      if d + 1 == 4 * |u| {
        KeyOnPath(t, u, u);
      }
    }
  }

  /** A string stored at the end of its path. */
  lemma EndReady(u: Str)
    ensures Ready(Tip(u), u, 4 * |u|)
  {
  }

  lemma NoBitYet(t: RTree, d: nat, n: nat, k: nat)
    requires Good(t) && k < 4 == |NodeAt(t, d, n).kids| && NodeAt(t, d, n).kids[k].Empty?
    ensures !Bit(NodeAt(t, d, n).tag.branch, k)
  {
    hide Bit;
    if t.Fork? {
      assert KidGood(t, k);
    } else {
      NoBits(0, k);
    }
  }

  /** Where there was no node, the next subtree is empty. */
  lemma BareKid(t: RTree, u: Str, d: nat, n: nat)
    requires d < 4 * |u|
    ensures !t.Fork? ==> NextTree(t, u, d, n).Empty?
    ensures d + 1 == 4 * |u| ==> Grown(Tip(u), u, d + 1, n) == Tip(u) == Grown(Empty, u, d + 1, n)
  {
  }

  /** Before the first digit. */
  lemma StartReady(t: RTree, u: Str, n: nat)
    requires Good(t) && Full(t, 0)
    ensures Ready(t, u, 0) && Plug(Top, Grown(t, u, 0, n)) == Grown(t, u, 0, n)
    ensures GrownKid(t, Grown(t, u, 0, n), u, 0)
  {
    GrownIsGood(t, u, 0, n);
  }

  /** After the last digit. */
  lemma Finished(cells: seq<Cell<Radix>>, root: Link, w: Place, c: Ctx<Radix>, t: RTree, u: Str)
    requires AtPlace(cells, root, w, c, t) && !t.Empty?
    ensures Rep(cells, root, Plug(c, t)) && Distinct(Plug(c, t)) && Grown(t, u, 4 * |u|, |cells|) == t
  {
    hide Rep, CtxRep, Apart;
    PlugRep(cells, root, Read(cells, root, w), c, t);
    PlugDistinct(c, t);
  }
}
