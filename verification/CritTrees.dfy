/** PATRICA.h: what a crit-bit tree is, why its walk finds a string, and why splicing in a new node
    at the critical bit keeps it one. */
module CritTrees {
  import opened Strings
  import opened Order
  import opened Tries
  import opened CritBits

  datatype Crit = Crit(byte: nat, otherbits: Byte)

  type CritTree = Tree<Crit>

  predicate Earlier(a: Crit, b: Crit) {
    Before(a.byte, a.otherbits, b.byte, b.otherbits)
  }

  function SideAt(u: Str, c: Crit): bool {
    Side(u, c.byte, c.otherbits)
  }

  function Index(side: bool): nat {
    if side then 1 else 0
  }

  ghost predicate AgreeAt(u: Str, v: Str, c: Crit)
    requires IsMask(c.otherbits)
  {
    AgreeBefore(u, v, c.byte, c.otherbits)
  }

  /** Below a node the critical bits come later. */
  ghost predicate LaterThan(t: CritTree, c: Crit) {
    t.Fork? ==> Earlier(c, t.tag)
  }

  /** All strings below a node agree before its critical bit, and each is on the side it belongs. */
  ghost predicate Decides(t: CritTree)
    requires t.Fork? && |t.kids| == 2 && IsMask(t.tag.otherbits)
  {
    && (forall s, s' :: Stores(t, s) && Stores(t, s') ==> AgreeAt(s, s', t.tag))
    && (forall s :: Stores(t.kids[0], s) ==> !SideAt(s, t.tag))
    && (forall s :: Stores(t.kids[1], s) ==> SideAt(s, t.tag))
  }

  ghost predicate Good(t: CritTree) {
    match t
    case Empty => false
    case Tip(s) => NulFree(s)
    case Fork(_, c, kids) =>
      && |kids| == 2 && IsMask(c.otherbits)
      && Good(kids[0]) && Good(kids[1]) && LaterThan(kids[0], c) && LaterThan(kids[1], c)
      && Decides(t)
  }

  /** The string the walk for `u` ends at. */
  ghost function Reached(t: CritTree, u: Str): Str
    requires Good(t)
  {
    match t
    case Tip(s) => s
    case Fork(_, c, kids) => Reached(kids[Index(SideAt(u, c))], u)
  }

  lemma {:induction false} ReachedIsStored(t: CritTree, u: Str)
    requires Good(t)
    ensures Stores(t, Reached(t, u))
  {
    if t.Fork? {
      ReachedIsStored(t.kids[Index(SideAt(u, t.tag))], u);
    }
  }

  /** The nodes above a stored string. */
  ghost function NodesAbove(t: CritTree, s: Str): nat
    requires Good(t)
  {
    match t
    case Tip(_) => 0
    case Fork(_, _, kids) => 1 + if Stores(kids[0], s) then NodesAbove(kids[0], s) else NodesAbove(kids[1], s)
  }

  /** The walk takes the side on which the string it ends at is stored. */
  lemma AboveStep(t: CritTree, u: Str)
    requires Good(t) && t.Fork?
    ensures NodesAbove(t, Reached(t, u)) == 1 + NodesAbove(t.kids[Index(SideAt(u, t.tag))], Reached(t, u))
  {
    ReachedIsStored(t.kids[Index(SideAt(u, t.tag))], u);
  }

  /** The walk ends at `u` exactly when `u` is stored. */
  lemma {:induction false} WalkDecides(t: CritTree, u: Str)
    requires Good(t)
    ensures Stores(t, u) <==> Reached(t, u) == u
  {
    if t.Fork? {
      var k := Index(SideAt(u, t.tag));
      WalkDecides(t.kids[k], u);
      if Reached(t, u) == u {
        ReachedIsStored(t, u);
      }
    }
  }

  // ---- insertion ----

  /** The trie with `u` spliced in, in a new node `n`, at critical bit `c`. */
  ghost function Grown(t: CritTree, u: Str, c: Crit, n: nat): CritTree {
    if t.Fork? && |t.kids| == 2 && !Earlier(c, t.tag) then
      var k := Index(SideAt(u, t.tag));
      t.(kids := t.kids[k := Grown(t.kids[k], u, c, n)])
    else
      Fork(n, c, if SideAt(u, c) then [t, Tip(u)] else [Tip(u), t])
  }

  /** `u` first differs from the string its walk ends at in critical bit `c`. */
  ghost predicate Differs(t: CritTree, u: Str, c: Crit)
    requires Good(t)
  {
    && NulFree(u) && IsMask(c.otherbits)
    && AgreeAt(u, Reached(t, u), c) && SideAt(u, c) != SideAt(Reached(t, u), c)
  }

  /** Where the splice happens, the whole subtree lies on the other side. */
  lemma SpliceBelow(t: CritTree, u: Str, c: Crit, s: Str)
    requires Good(t) && Differs(t, u, c) && (t.Fork? ==> Earlier(c, t.tag)) && Stores(t, s)
    ensures AgreeAt(u, s, c) && SideAt(s, c) == !SideAt(u, c)
  {
    hide AgreeBefore, AgreeAbove, Side;
    var p := Reached(t, u);
    ReachedIsStored(t, u);
    if t.Fork? {
      EarlierSide(p, s, c.byte, c.otherbits, t.tag.byte, t.tag.otherbits);
      AgreeBeforeTransitive(u, p, s, c.byte, c.otherbits);
    }
  }

  /** A node at which the walk does not stop tests an earlier bit: it would tell the two strings apart. */
  lemma TagIsEarlier(t: CritTree, u: Str, c: Crit)
    requires Good(t) && Differs(t, u, c) && t.Fork? && !Earlier(c, t.tag)
    ensures Earlier(t.tag, c)
  {
    hide AgreeBefore, Side, Stores;
    ReachedIsStored(t.kids[Index(SideAt(u, t.tag))], u);
  }

  /** A node passed on the way down is decided before the new critical bit. */
  lemma PassedNode(t: CritTree, u: Str, c: Crit, s: Str)
    requires Good(t) && Differs(t, u, c) && t.Fork? && !Earlier(c, t.tag) && Stores(t, s)
    ensures Earlier(t.tag, c) && AgreeAt(u, s, t.tag) && AgreeAt(s, u, t.tag)
  {
    TagIsEarlier(t, u, c);
    var p := Reached(t, u);
    ReachedIsStored(t, u);
    assert AgreeAt(p, s, t.tag) && AgreeAt(u, p, c);
    hide AgreeBefore, Side, Reached, Stores, Before, IsMask, Good, Decides, Differs;
    EarlierSide(u, p, t.tag.byte, t.tag.otherbits, c.byte, c.otherbits);
    AgreeBeforeTransitive(u, p, s, t.tag.byte, t.tag.otherbits);
    Turn(u, s, t.tag);
  }

  lemma {:induction false} GrownStores(t: CritTree, u: Str, c: Crit, n: nat, s: Str)
    requires Good(t)
    ensures Stores(Grown(t, u, c, n), s) <==> Stores(t, s) || s == u
  {
    if t.Fork? && !Earlier(c, t.tag) {
      var k := Index(SideAt(u, t.tag));
      GrownStores(t.kids[k], u, c, n, s);
      var g := Grown(t, u, c, n);
      assert g.kids[k] == Grown(t.kids[k], u, c, n) && g.kids[1 - k] == t.kids[1 - k];
    } else {
      var g := Grown(t, u, c, n);
      var k := Index(SideAt(u, c));
      assert g.kids[k] == Tip(u) && g.kids[1 - k] == t;
    }
  }

  lemma AgreeAtItself(u: Str, c: Crit)
    requires IsMask(c.otherbits)
    ensures AgreeAt(u, u, c)
  {
  }

  /** A splice keeps a crit-bit tree one, and below the same bound. */
  lemma {:induction false} GrownIsGood(t: CritTree, u: Str, c: Crit, n: nat)
    requires Good(t) && Differs(t, u, c)
    ensures Good(Grown(t, u, c, n))
    ensures forall b :: LaterThan(t, b) && Earlier(b, c) ==> LaterThan(Grown(t, u, c, n), b)
  {
    var g := Grown(t, u, c, n);
    if t.Fork? && !Earlier(c, t.tag) {
      var k := Index(SideAt(u, t.tag));
      ReachedIsStored(t, u);
      PassedNode(t, u, c, Reached(t, u));
      GrownIsGood(t.kids[k], u, c, n);
      assert g.kids[k] == Grown(t.kids[k], u, c, n) && g.kids[1 - k] == t.kids[1 - k];
      GrownDecides(t, u, c, n);
    } else {
      SplicedDecides(t, u, c, n);
    }
  }

  lemma GrownDecides(t: CritTree, u: Str, c: Crit, n: nat)
    requires Good(t) && Differs(t, u, c) && t.Fork? && !Earlier(c, t.tag)
    ensures Grown(t, u, c, n).Fork? && |Grown(t, u, c, n).kids| == 2 && Grown(t, u, c, n).tag == t.tag
    ensures Decides(Grown(t, u, c, n))
  {
    hide AgreeBefore, AgreeAbove, Side, AgreeAt, Differs, Good, Reached;
    hide SideAt;
    GoodFork(t);
    var g := Grown(t, u, c, n);
    var k := Index(SideAt(u, t.tag));
    assert g.kids[k] == Grown(t.kids[k], u, c, n) && g.kids[1 - k] == t.kids[1 - k];
    AgreeAtItself(u, t.tag);
    forall s
      ensures Stores(g, s) <==> Stores(t, s) || s == u
      ensures Stores(g.kids[k], s) <==> Stores(t.kids[k], s) || s == u
      ensures Stores(t, s) ==> AgreeAt(u, s, t.tag) && AgreeAt(s, u, t.tag)
    {
      GrownStores(t, u, c, n, s);
      GrownStores(t.kids[k], u, c, n, s);
      if Stores(t, s) {
        PassedNode(t, u, c, s);
      }
    }
  }

  lemma GoodFork(t: CritTree)
    requires Good(t) && t.Fork?
    ensures |t.kids| == 2 && IsMask(t.tag.otherbits) && Good(t.kids[0]) && Good(t.kids[1]) && Decides(t)
  {
  }

  lemma SplicedDecides(t: CritTree, u: Str, c: Crit, n: nat)
    requires Good(t) && Differs(t, u, c) && (t.Fork? ==> Earlier(c, t.tag))
    ensures IsMask(c.otherbits) && Decides(Fork(n, c, if SideAt(u, c) then [t, Tip(u)] else [Tip(u), t]))
  {
    hide AgreeBefore, AgreeAbove, Side, Good, Reached, AgreeAt;
    var g: CritTree := Fork(n, c, if SideAt(u, c) then [t, Tip(u)] else [Tip(u), t]);
    var k := Index(SideAt(u, c));
    assert g.kids[k] == Tip(u) && g.kids[1 - k] == t;
    AgreeAtItself(u, c);
    forall s
      ensures Stores(g, s) <==> Stores(t, s) || s == u
    {
      GrownStores(t, u, c, n, s);
    }
    forall s | Stores(t, s)
      ensures AgreeAt(u, s, c) && AgreeAt(s, u, c) && SideAt(s, c) == !SideAt(u, c)
    {
      SpliceBelow(t, u, c, s);
      Turn(u, s, c);
    }
    forall s, s' | Stores(t, s) && Stores(t, s')
      ensures AgreeAt(s, s', c)
    {
      Turn3(s, u, s', c);
    }
  }

  lemma Turn(u: Str, v: Str, c: Crit)
    requires IsMask(c.otherbits) && AgreeAt(u, v, c)
    ensures AgreeAt(v, u, c)
  {
  }

  lemma Turn3(u: Str, v: Str, w: Str, c: Crit)
    requires IsMask(c.otherbits) && AgreeAt(u, v, c) && AgreeAt(v, w, c)
    ensures AgreeAt(u, w, c)
  {
  }

  // ---- in the arena ----

  /** One step of the loop in insert. */
  lemma GrowthStep(cells: seq<Cell<Crit>>, root: Link, w: Place, x: Ctx<Crit>, t: CritTree, u: Str, c: Crit)
    requires AtPlace(cells, root, w, x, t) && Good(t) && t.Fork? && !Earlier(c, t.tag)
    ensures var k := Index(SideAt(u, t.tag));
            var y := In(x, t.id, t.tag, t.kids, k);
            && |t.kids| == 2 && Good(t.kids[k])
            && AtPlace(cells, root, ChildOf(t.id, k), y, t.kids[k])
            && forall n :: Plug(y, Grown(t.kids[k], u, c, n)) == Plug(x, Grown(t, u, c, n))
  {
    hide AtPlace, Plug, SideAt, Decides;
    var k := Index(SideAt(u, t.tag));
    StepDown(cells, root, w, x, t, k, t);
    forall n: nat
      ensures Plug(In(x, t.id, t.tag, t.kids, k), Grown(t.kids[k], u, c, n)) == Plug(x, Grown(t, u, c, n))
    {
      StepDown(cells, root, w, x, t, k, Grown(t.kids[k], u, c, n));
    }
  }

  lemma SpliceApart(x: Ctx<Crit>, t: CritTree, u: Str, c: Crit, n: nat)
    requires Apart(x, t) && !Uses(t, n) && !CtxUses(x, n)
    ensures Apart(x, Fork(n, c, if SideAt(u, c) then [t, Tip(u)] else [Tip(u), t]))
  {
    hide CtxDistinct, SideAt, CtxUses;
    var g: CritTree := Fork(n, c, if SideAt(u, c) then [t, Tip(u)] else [Tip(u), t]);
    var k := Index(SideAt(u, c));
    assert g.kids[k] == Tip(u) && g.kids[1 - k] == t;
    forall m: nat | Uses(g, m)
      ensures m == n || Uses(t, m)
    {
      if m != n {
        var j :| 0 <= j < 2 && Uses(g.kids[j], m);
      }
    }
    assert forall m: nat :: !Uses(g.kids[k], m);
    assert Distinct(g.kids[k]) && Distinct(g.kids[1 - k]);
    assert !Uses(g.kids[0], n) && !Uses(g.kids[1], n);
    assert Distinct(g);
  }

  /** A new node, with `u` on one side and the old subtree on the other, stored at the place found. */
  lemma Spliced(cells: seq<Cell<Crit>>, root: Link, w: Place, x: Ctx<Crit>, t: CritTree, u: Str, c: Crit,
                node: Cell<Crit>)
    requires AtPlace(cells, root, w, x, t) && (t.Fork? ==> Earlier(c, t.tag))
    requires node.tag == c && |node.child| == 2
    requires var k := Index(SideAt(u, c)); node.child[k] == Text(u) && node.child[1 - k] == Read(cells, root, w)
    ensures Inside(cells + [node], w)
    ensures var n := |cells|;
            var g := Plug(x, Grown(t, u, c, n));
            && Rep(StoreCells(cells + [node], w, Inner(n)), StoreRoot(root, w, Inner(n)), g) && Distinct(g)
            && |StoreCells(cells + [node], w, Inner(n))| == n + 1
  {
    hide Apart, CtxRep, SideAt, CtxUses, Uses, Plug, Distinct;
    var p, n := Read(cells, root, w), |cells|;
    Allocate(cells, node, root, p, x, t);
    SpliceApart(x, t, u, c, n);
    ReadHole(cells + [node], root, p, x);
    StoreInHole(cells + [node], root, p, x, Inner(n), Grown(t, u, c, n));
  }

  lemma GrownTree(t: CritTree, u: Str, c: Crit, n: nat)
    requires Good(t) && Differs(t, u, c)
    ensures Good(Grown(t, u, c, n)) && Forks(Grown(t, u, c, n)) == Forks(t) + 1
    ensures forall s :: Stores(Grown(t, u, c, n), s) <==> Stores(t, s) || s == u
  {
    hide Good, Forks, Differs, Grown, Stores;
    GrownIsGood(t, u, c, n);
    GrownForks(t, u, c, n);
    forall s
      ensures Stores(Grown(t, u, c, n), s) <==> Stores(t, s) || s == u
    {
      GrownStores(t, u, c, n, s);
    }
  }

  lemma SideComputed(u: Str, c: Crit)
    ensures Direction(c.otherbits, if c.byte < |u| then u[c.byte] else 0) == SideAt(u, c)
  {
  }

  /** The mask of the first difference separates the new string from the one the walk found. */
  lemma DifferenceFound(t: CritTree, u: Str, newbyte: nat, d: Byte)
    requires Good(t) && NulFree(u) && newbyte <= |Reached(t, u)|
    requires d == ByteAt(Reached(t, u), newbyte) ^ ByteAt(u, newbyte) && d != 0
    requires forall j :: 0 <= j < newbyte ==> ByteAt(Reached(t, u), j) == ByteAt(u, j)
    ensures Differs(t, u, Crit(newbyte, MaskOf(d)))
    ensures Direction(MaskOf(d), At(Reached(t, u), newbyte)) == !SideAt(u, Crit(newbyte, MaskOf(d)))
  {
    hide Direction, MaskOf, AgreeAbove, Good, Reached;
    var x, y := ByteAt(Reached(t, u), newbyte), ByteAt(u, newbyte);
    DifferenceMask(x, y, d);
  }

  lemma PlugTop()
    ensures forall t: CritTree :: Plug(Top, t) == t
  {
  }

  lemma GoodIsNotEmpty(t: CritTree)
    ensures Good(t) ==> !t.Empty?
  {
  }

  lemma FirstString(u: Str)
    requires NulFree(u)
    ensures Good(Tip(u)) && Distinct<Crit>(Tip(u)) && InOrder(Tip(u)) == [u]
  {
  }

  // ---- order and size ----

  /** The strings from left to right. */
  ghost function InOrder(t: CritTree): seq<Str> {
    match t
    case Empty => []
    case Tip(s) => [s]
    case Fork(_, _, kids) => if |kids| == 2 then InOrder(kids[0]) + InOrder(kids[1]) else []
  }

  ghost function Forks(t: CritTree): nat {
    if t.Fork? && |t.kids| == 2 then Forks(t.kids[0]) + Forks(t.kids[1]) + 1 else 0
  }

  /** From left to right the strings are in strictly ascending string_cmp order. */
  lemma {:induction false} InOrderAscends(t: CritTree)
    requires Good(t)
    ensures forall i, j :: 0 <= i < j < |InOrder(t)| ==> Less(InOrder(t)[i], InOrder(t)[j])
    ensures forall s :: s in InOrder(t) <==> Stores(t, s)
    ensures forall s :: Stores(t, s) ==> NulFree(s)
  {
    hide NulFree;
    if t.Fork? {
      var a, b := InOrder(t.kids[0]), InOrder(t.kids[1]);
      InOrderAscends(t.kids[0]);
      InOrderAscends(t.kids[1]);
      forall u, v | u in a && v in b
        ensures Less(u, v)
      {
        assert Stores(t, u) && Stores(t, v) by {
          assert Stores(t.kids[0], u) && Stores(t.kids[1], v);
        }
        SidesOrderStrings(u, v, t.tag.byte, t.tag.otherbits);
      }
      hide Less, Decides, AgreeBefore;
      assert forall i, j :: 0 <= i < |a| && 0 <= j < |b| ==> Less(a[i], b[j]);
    }
  }

  /** One node fewer than strings. */
  lemma {:induction false} NodesAndStrings(t: CritTree)
    requires Good(t)
    ensures |InOrder(t)| == Forks(t) + 1
  {
    if t.Fork? {
      NodesAndStrings(t.kids[0]);
      NodesAndStrings(t.kids[1]);
    }
  }

  lemma {:induction false} GrownForks(t: CritTree, u: Str, c: Crit, n: nat)
    requires Good(t)
    ensures Forks(Grown(t, u, c, n)) == Forks(t) + 1
  {
    if t.Fork? && !Earlier(c, t.tag) {
      GrownForks(t.kids[Index(SideAt(u, t.tag))], u, c, n);
    }
  }

  // ---- depth ----

  /** The number of a critical bit, counted from the start of the string. */
  function BitNumber(c: Crit): nat {
    8 * c.byte + Rank(c.otherbits)
  }

  /** A string that ends before the critical bit makes every other one read 0 there. */
  lemma EndsEarly(s: Str, a: Str, c: Crit)
    requires IsMask(c.otherbits) && AgreeAt(s, a, c) && |s| < c.byte && NulFree(a)
    ensures ByteAt(a, c.byte) == 0
  {
    assert ByteAt(s, |s|) == ByteAt(a, |s|);
  }

  /** The critical bit of a node lies within every string below it, its terminator included. */
  lemma BitWithin(t: CritTree, s: Str)
    requires Good(t) && t.Fork? && Stores(t, s) && NulFree(s)
    ensures BitNumber(t.tag) < 8 * (|s| + 1)
  {
    hide AgreeAbove, Direction;
    var a, b := Reached(t.kids[0], s), Reached(t.kids[1], s);
    ReachedIsStored(t.kids[0], s);
    ReachedIsStored(t.kids[1], s);
    InOrderAscends(t);
    assert AgreeAt(s, a, t.tag) && AgreeAt(s, b, t.tag);
    if |s| < t.tag.byte {
      EndsEarly(s, a, t.tag);
      EndsEarly(s, b, t.tag);
    }
  }

  /** One step of the walk for `u`: a later bit, and still one of the string the walk will end at. */
  lemma WalkStep(t: CritTree, u: Str)
    requires Good(t) && t.Fork?
    ensures var kid := t.kids[Index(SideAt(u, t.tag))];
            && Good(kid) && Reached(kid, u) == Reached(t, u) && (kid.Fork? ==> BitNumber(t.tag) < BitNumber(kid.tag))
    ensures BitNumber(t.tag) < 8 * (|Reached(t, u)| + 1)
  {
    hide Direction, NulFree, Decides;
    var kid := t.kids[Index(SideAt(u, t.tag))];
    ReachedIsStored(t, u);
    InOrderAscends(t);
    BitWithin(t, Reached(t, u));
  }
}
