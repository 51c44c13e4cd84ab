/** RadixTree.h search_tree, at the edges: the bytes it reads behind a short key, and its answer to the
    empty key. */
module RadixEdges {
  import opened Strings
  import opened Tries
  import opened RadixDigits
  import opened RadixTrees
  import opened RadixGrowth
  import opened RadixShrink

  /** The nodes on the way of the search for `u`: from a node that does not test the last digit of `u` or
      a later one, on to its child in the direction of the digit of `u`. */
  ghost predicate OnTheWay(t: RTree, u: Str, path: seq<RTree>) {
    && path != [] && path[0] == t
    && (forall i :: 0 <= i < |path| ==> path[i].Fork? && |path[i].kids| == 4)
    && forall i :: 0 <= i < |path| - 1 ==>
         path[i].tag.pos + 1 < 4 * |u| && path[i + 1] == path[i].kids[Digit(u, path[i].tag.pos)]
  }

  /** The way ends at a node whose digit lies behind the byte of the terminator. */
  ghost predicate EndsBehind(t: RTree, u: Str, path: seq<RTree>) {
    OnTheWay(t, u, path) && path[|path| - 1].tag.pos >= 4 * (|u| + 1)
  }

  /** search_tree reads there before it compares the position with the length. */
  ghost predicate ReadsBehind(t: RTree, u: Str) {
    exists path: seq<RTree> :: EndsBehind(t, u, path)
  }

  lemma WayGoesOn(t: RTree, u: Str, path: seq<RTree>)
    requires EndsBehind(t, u, path)
    ensures t.Fork? && |t.kids| == 4 && path != []
    ensures |path| == 1 ==> t.tag.pos >= 4 * (|u| + 1)
    ensures |path| > 1 ==> t.tag.pos + 1 < 4 * |u| && EndsBehind(t.kids[Digit(u, t.tag.pos)], u, path[1..])
  {
    hide Digit;
  }

  lemma WayStarts(t: RTree, u: Str, path: seq<RTree>)
    requires t.Fork? && |t.kids| == 4 && t.tag.pos + 1 < 4 * |u|
    requires EndsBehind(t.kids[Digit(u, t.tag.pos)], u, path)
    ensures EndsBehind(t, u, [t] + path)
  {
    hide Digit;
    var way := [t] + path;
    forall i | 0 <= i < |way| - 1
      ensures way[i].Fork? && |way[i].kids| == 4 && way[i].tag.pos + 1 < 4 * |u|
      ensures way[i + 1] == way[i].kids[Digit(u, way[i].tag.pos)]
    {
      assert i > 0 ==> way[i] == path[i - 1] && way[i + 1] == path[i];
    }
  }

  /** What one node contributes. */
  lemma BehindStep(t: RTree, u: Str)
    ensures ReadsBehind(t, u) <==>
              && t.Fork? && |t.kids| == 4
              && (t.tag.pos >= 4 * (|u| + 1) ||
                  (t.tag.pos + 1 < 4 * |u| && ReadsBehind(t.kids[Digit(u, t.tag.pos)], u)))
  {
    hide Digit;
    if path: seq<RTree> :| EndsBehind(t, u, path) {
      WayGoesOn(t, u, path);
    }
    if t.Fork? && |t.kids| == 4 {
      if t.tag.pos >= 4 * (|u| + 1) {
        assert EndsBehind(t, u, [t]);
      } else if t.tag.pos + 1 < 4 * |u| && ReadsBehind(t.kids[Digit(u, t.tag.pos)], u) {
        var path: seq<RTree> :| EndsBehind(t.kids[Digit(u, t.tag.pos)], u, path);
        WayStarts(t, u, path);
      }
    }
  }

  /** With a node for every digit the search stops at the terminator at the latest. */
  lemma {:induction false} FullReadsInside(t: RTree, u: Str, d: nat)
    requires Full(t, d) && d <= 4 * |u|
    ensures !ReadsBehind(t, u)
    decreases 4 * |u| - d
  {
    hide ReadsBehind;
    BehindStep(t, u);
    if t.Fork? && d + 1 < 4 * |u| {
      FullReadsInside(t.kids[Digit(u, d)], u, d + 1);
    }
  }

  /** What search_tree answers to the empty key in a tree that is not empty. */
  ghost predicate RootMarked(t: RTree) {
    t.Fork? && t.tag.branch != 0
  }

  lemma SomeBit(branch: Byte) returns (d: nat)
    requires 0 != branch < 16
    ensures d < 4 && Bit(branch, d)
  {
    d := if Bit(branch, 0) then 0 else if Bit(branch, 1) then 1 else if Bit(branch, 2) then 2 else 3;
  }

  /** Every stored string is a key itself. */
  lemma {:induction false} StoredIsKey(t: RTree, s: Str)
    requires Good(t) && t.Fork? && Stores(t, s)
    ensures HasKey(t, s)
  {
    hide Agree, Digit, Bit;
    var d: nat :| d < |t.kids| && Stores(t.kids[d], s);
    assert KidGood(t, d);
    if t.kids[d].Tip? {
      assert KeyAt(t, d, s);
    } else {
      StoredIsKey(t.kids[d], s);
    }
  }

  /** The two keys have the same digits, up to the last one of `k`. */
  ghost predicate SameButLast(k: Str, k': Str) {
    |k| > 0 && Agree(k, k', 4 * |k| - 1)
  }

  /** `k` begins every key, its last digit apart. */
  ghost predicate BeginsAll(t: RTree, k: Str) {
    HasKey(t, k) && forall k' :: HasKey(t, k') ==> SameButLast(k, k')
  }

  lemma MarkedBegins(t: RTree) returns (k: Str)
    requires Good(t) && RootMarked(t)
    ensures BeginsAll(t, k)
  {
    hide Bit, Digit;
    var d := SomeBit(t.tag.branch);
    BitHasString(t, d);
    assert KidGood(t, d);
    var s := SomeText(t.kids[d]);
    TextDigit(t, d, s);
    k := s[..(t.tag.pos + 1) / 4];
    assert KeyAt(t, d, k);
    forall k' | HasKey(t, k')
      ensures SameButLast(k, k')
    {
      var s' := KeyOrigin(t, k');
      assert Agree(s, s', t.tag.pos);
      PrefixAgree(s, s', k, k', t.tag.pos);
    }
  }

  lemma PrefixAgree(s: Str, s': Str, k: Str, k': Str, n: nat)
    requires Agree(s, s', n) && k <= s && k' <= s' && n <= 4 * |k| && n <= 4 * |k'|
    ensures Agree(k, k', n)
  {
    hide Digit;
    forall i: nat | i < n
      ensures Digit(k, i) == Digit(k', i)
    {
      PrefixDigit(k, s, i);
      PrefixDigit(k', s', i);
    }
  }

  /** Two sides of a node are in use: the keys part there. */
  lemma KeysPart(t: RTree, d: nat, e: nat, k: Str)
    requires Good(t) && t.Fork? && |t.kids| == 4 && d < 4 && e < 4 && d != e
    requires !t.kids[d].Empty? && !t.kids[e].Empty? && BeginsAll(t, k)
    ensures t.tag.pos >= 4 * |k| - 1
  {
    hide KidGood, HasKey, Digit;
    var s := SomeText(t.kids[d]);
    var s' := SomeText(t.kids[e]);
    TextDigit(t, d, s);
    TextDigit(t, e, s');
    StoredIsKey(t, s);
    StoredIsKey(t, s');
    assert SameButLast(k, s) && SameButLast(k, s');
  }

  lemma BeginsMarked(t: RTree, k: Str)
    requires Good(t) && Compressed(t) && t.Fork? && BeginsAll(t, k)
    ensures RootMarked(t)
  {
    hide Agree, Bit, Digit, SameButLast;
    if t.tag.branch == 0 {
      var _ := KeyOrigin(t, k);
      var e: nat :| e < 4 && !t.kids[e].Empty?;
      if d: nat :| d < 4 && d != e && !t.kids[d].Empty? {
        KeysPart(t, d, e, k);
        KeyBelow(t, k);
      } else {
        OnlyIsFirst(t.kids, e);
        assert false;
      }
    }
  }

  /** A key that ends at the digit of a node needs a bit there. */
  lemma KeyBelow(t: RTree, k: Str)
    requires Good(t) && t.Fork? && HasKey(t, k) && t.tag.pos + 1 == 4 * |k|
    ensures t.tag.branch != 0
  {
    hide Agree, Digit;
    if d: nat :| d < 4 && HasKey(t.kids[d], k) {
      assert KidGood(t, d);
      var _ := KeyOrigin(t.kids[d], k);
    }
  }

  /** search_tree finds the empty key, which nobody inserted, in a shrunk tree exactly when some key
      begins all keys, its last digit apart. */
  lemma EmptyKeyAnswer(t: RTree)
    requires Good(t) && Compressed(t) && !t.Tip?
    ensures RootMarked(t) <==> exists k :: BeginsAll(t, k)
  {
    hide BeginsAll, Good, Compressed;
    if RootMarked(t) {
      var _ := MarkedBegins(t);
    }
    if k :| BeginsAll(t, k) {
      KeysNeedNodes(t, k);
      BeginsMarked(t, k);
    }
  }

  lemma KeysNeedNodes(t: RTree, k: Str)
    requires BeginsAll(t, k)
    ensures t.Fork?
  {
  }

  /** So it does as soon as there is a single key. */
  lemma SingleKeyFindsEmpty(t: RTree, k: Str)
    requires Good(t) && Compressed(t) && !t.Tip? && k != [] && forall k' :: HasKey(t, k') <==> k' == k
    ensures RootMarked(t)
  {
    assert BeginsAll(t, k);
    EmptyKeyAnswer(t);
  }
}
