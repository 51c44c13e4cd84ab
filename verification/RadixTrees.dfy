/** RadixTree.h: what a 4-way radix tree is, which keys it holds, and why a search may skip digits. */
module RadixTrees {
  import opened Strings
  import opened Tries
  import opened RadixDigits

  /** Digit position of a node, and the mask of the directions in which a key ends. */
  datatype Radix = Radix(pos: nat, branch: Byte)

  type RTree = Tree<Radix>

  /** Key `k` ends at node `t` in direction `d`: the bit is set, and `k` is a prefix of a string
      stored there. */
  ghost predicate KeyAt(t: RTree, d: nat, k: Str)
    requires t.Fork? && |t.kids| == 4 && d < 4
  {
    Bit(t.tag.branch, d) && 4 * |k| == t.tag.pos + 1 && exists s :: Stores(t.kids[d], s) && k <= s
  }

  ghost predicate HasKey(t: RTree, k: Str) {
    t.Fork? && |t.kids| == 4
    && ((exists d: nat :: d < 4 && KeyAt(t, d, k)) || exists d: nat :: d < 4 && HasKey(t.kids[d], k))
  }

  ghost predicate KidGood(t: RTree, d: nat)
    requires t.Fork? && |t.kids| == 4 && d < 4
  {
    var kid := t.kids[d];
    && (forall s :: Stores(kid, s) ==> t.tag.pos < 4 * |s| && Digit(s, t.tag.pos) == d)
    && (kid.Fork? ==> kid.tag.pos > t.tag.pos)
    && (kid.Tip? ==> 4 * |kid.s| == t.tag.pos + 1 && Bit(t.tag.branch, d))
    && (Bit(t.tag.branch, d) ==> !kid.Empty? && (t.tag.pos + 1) % 4 == 0)
  }

  /** A node in order, except that it may have no child yet. */
  ghost predicate NodeGood(t: RTree)
    requires t.Fork?
  {
    && |t.kids| == 4 && t.tag.branch < 16
    && (forall d: nat {:trigger KidGood(t, d)} :: d < 4 ==> KidGood(t, d))
    && (forall s, s' :: Stores(t, s) && Stores(t, s') ==> Agree(s, s', t.tag.pos))
  }

  /** Nodes test ever later digits, each string is on the side of its digit, all strings below a node
      agree before its digit, and a set bit has a string below it. */
  ghost predicate Good(t: RTree) {
    t.Fork? ==>
      && NodeGood(t)
      && (forall d: nat :: d < 4 ==> Good(t.kids[d]))
      && exists d: nat :: d < 4 && !t.kids[d].Empty?
  }

  // ---- the leftmost string ----

  function FirstKid(kids: seq<RTree>): nat {
    if |kids| == 0 || !kids[0].Empty? then 0 else 1 + FirstKid(kids[1..])
  }

  lemma {:induction false} FirstKidFound(kids: seq<RTree>, d: nat)
    requires d < |kids| && !kids[d].Empty?
    ensures FirstKid(kids) <= d && !kids[FirstKid(kids)].Empty?
    ensures forall j :: 0 <= j < FirstKid(kids) ==> kids[j].Empty?
  {
    if kids[0].Empty? {
      FirstKidFound(kids[1..], d - 1);
    }
  }

  lemma SomeKid(t: RTree)
    requires Good(t) && t.Fork?
    ensures FirstKid(t.kids) < 4 == |t.kids| && !t.kids[FirstKid(t.kids)].Empty? && Good(t.kids[FirstKid(t.kids)])
    ensures forall j :: 0 <= j < FirstKid(t.kids) ==> t.kids[j].Empty?
  {
    var d: nat :| d < 4 && !t.kids[d].Empty?;
    FirstKidFound(t.kids, d);
  }

  lemma {:induction false} SomeText(t: RTree) returns (s: Str)
    requires Good(t) && !t.Empty?
    ensures Stores(t, s)
  {
    if t.Tip? {
      s := t.s;
    } else {
      SomeKid(t);
      s := SomeText(t.kids[FirstKid(t.kids)]);
    }
  }

  // ---- why search works ----

  lemma TextDigit(t: RTree, d: nat, s: Str)
    requires t.Fork? && NodeGood(t) && d < 4 && Stores(t.kids[d], s)
    ensures Stores(t, s) && t.tag.pos < 4 * |s| && Digit(s, t.tag.pos) == d
  {
    assert KidGood(t, d);
  }

  /** Every key below is a prefix of a stored string, and reaches beyond the digit of the node. */
  lemma {:induction false} KeyOrigin(t: RTree, k: Str) returns (s: Str)
    requires Good(t) && HasKey(t, k)
    ensures Stores(t, s) && k <= s && 4 * |k| > t.tag.pos
  {
    hide Agree, Bit, Digit;
    if d: nat :| d < 4 && KeyAt(t, d, k) {
      s :| Stores(t.kids[d], s) && k <= s;
    } else {
      var d: nat :| d < 4 && HasKey(t.kids[d], k);
      assert KidGood(t, d);
      s := KeyOrigin(t.kids[d], k);
    }
  }

  lemma PrefixDigit(k: Str, s: Str, pos: nat)
    requires k <= s && pos < 4 * |k|
    ensures Digit(k, pos) == Digit(s, pos)
  {
  }

  /** Two strings on the same side of a node have the same key ending there. */
  lemma SamePrefix(t: RTree, d: nat, s: Str, s': Str, k: Str)
    requires t.Fork? && NodeGood(t) && d < 4 && Stores(t.kids[d], s) && Stores(t.kids[d], s')
    requires 4 * |k| == t.tag.pos + 1 && k <= s
    ensures k <= s'
  {
    TextDigit(t, d, s);
    TextDigit(t, d, s');
    assert Agree(s, s', t.tag.pos + 1);
    AgreeIsPrefix(s, s', |k|);
  }

  /** What a search may conclude at a node. */
  lemma SearchStep(t: RTree, u: Str)
    requires Good(t) && t.Fork? && |t.kids| == 4
    ensures t.tag.pos >= 4 * |u| ==> !HasKey(t, u)
    ensures t.tag.pos + 1 < 4 * |u| ==>
              (HasKey(t, u) <==> HasKey(t.kids[Digit(u, t.tag.pos)], u)) && Good(t.kids[Digit(u, t.tag.pos)])
    ensures t.tag.pos + 1 == 4 * |u| ==> (HasKey(t, u) <==> KeyAt(t, Digit(u, t.tag.pos), u))
  {
    hide Agree, Bit, Digit;
    if HasKey(t, u) {
      var _ := KeyOrigin(t, u);
      var d := Digit(u, t.tag.pos);
      forall e: nat | e < 4 && KeyAt(t, e, u)
        ensures e == d
      {
        var s :| Stores(t.kids[e], s) && u <= s;
        TextDigit(t, e, s);
        PrefixDigit(u, s, t.tag.pos);
      }
      forall e: nat | e < 4 && HasKey(t.kids[e], u)
        ensures e == d && t.tag.pos + 1 < 4 * |u|
      {
        var s := KeyOrigin(t.kids[e], u);
        TextDigit(t, e, s);
        PrefixDigit(u, s, t.tag.pos);
        assert KidGood(t, e);
      }
    }
  }

  /** At the last digit, any string on that side will do for the comparison. */
  lemma LastDigit(t: RTree, d: nat, s: Str, u: Str)
    requires Good(t) && t.Fork? && d < 4 && 4 * |u| == t.tag.pos + 1 && |t.kids| == 4 && Stores(t.kids[d], s)
    ensures |u| <= |s| && (KeyAt(t, d, u) <==> Bit(t.tag.branch, d) && u == s[..|u|])
  {
    hide Bit;
    TextDigit(t, d, s);
    if KeyAt(t, d, u) {
      var s' :| Stores(t.kids[d], s') && u <= s';
      SamePrefix(t, d, s', s, u);
    }
  }

  lemma KeyNeedsBit(t: RTree, d: nat, u: Str)
    requires t.Fork? && |t.kids| == 4 && d < 4 && !Bit(t.tag.branch, d)
    ensures !KeyAt(t, d, u)
  {
  }

  lemma BitHasString(t: RTree, d: nat)
    requires Good(t) && t.Fork? && |t.kids| == 4 && d < 4 && Bit(t.tag.branch, d)
    ensures !t.kids[d].Empty? && Good(t.kids[d])
  {
    assert KidGood(t, d);
  }

  /** A string stored in the child itself ends at the digit of the node. */
  lemma WholeString(t: RTree, d: nat, u: Str)
    requires Good(t) && t.Fork? && |t.kids| == 4 && d < 4 && 4 * |u| == t.tag.pos + 1 && t.kids[d].Tip?
    ensures |t.kids[d].s| == |u|
  {
    assert KidGood(t, d);
  }
}
