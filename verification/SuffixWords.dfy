/** The theory behind the automaton, on words alone: the longest suffix of the text read so far
    that the trie knows, and how failing from one known word to the next finds it. */
module SuffixWords {
  import opened Strings

  ghost predicate PrefixClosed(words: seq<Str>) {
    [] in words && forall w :: w in words && w != [] ==> w[..|w| - 1] in words
  }

  /** The longest suffix of `s` among `words`. */
  ghost function LongestSuffix(words: seq<Str>, s: Str): (r: Str)
    requires [] in words
    ensures r in words && |r| <= |s|
  {
    if s in words then s else LongestSuffix(words, s[1..])
  }

  /** The known suffixes of `s` are exactly the known suffixes of its longest known suffix. */
  lemma {:induction false} KnownSuffixes(words: seq<Str>, s: Str, p: Str)
    requires [] in words && p in words
    ensures IsSuffix(p, s) <==> IsSuffix(p, LongestSuffix(words, s))
  {
    if s !in words {
      KnownSuffixes(words, s[1..], p);
    }
  }

  /** Nothing read before the longest known suffix can matter for what follows. */
  lemma {:induction false} ForgetPrefix(words: seq<Str>, s: Str, c: Byte)
    requires PrefixClosed(words)
    ensures LongestSuffix(words, s + [c]) == LongestSuffix(words, LongestSuffix(words, s) + [c])
  {
    if s !in words {
      assert (s + [c])[..|s + [c]| - 1] == s;
      assert (s + [c])[1..] == s[1..] + [c];
      ForgetPrefix(words, s[1..], c);
    }
  }

  /** One fail step keeps the answer. */
  lemma FailStep(words: seq<Str>, w: Str, c: Byte)
    requires PrefixClosed(words) && w != [] && w + [c] !in words
    ensures LongestSuffix(words, w + [c]) == LongestSuffix(words, LongestSuffix(words, w[1..]) + [c])
  {
    assert (w + [c])[1..] == w[1..] + [c];
    ForgetPrefix(words, w[1..], c);
  }

  // ---- how many words are tried ----

  /** The known suffixes of `s` that are at least `m` long. */
  ghost function AtLeast(words: seq<Str>, s: Str, m: int): set<Str> {
    set v | v in words && IsSuffix(v, s) && |v| >= m
  }

  /** The known suffixes of the text `read` that ac_goto tries with the byte behind it, which makes `d`
      the longest known suffix: from the longest one down to the one that `d` extends, or to the empty
      word. */
  ghost function Tried(words: seq<Str>, read: Str, d: Str): set<Str> {
    AtLeast(words, read, |d| - 1)
  }

  /** What a whole text costs: the words tried at its first `n` bytes. */
  ghost function TriedUpTo(words: seq<Str>, text: Str, n: nat): nat
    requires [] in words && n <= |text|
  {
    if n == 0 then 0
    else TriedUpTo(words, text, n - 1) + |Tried(words, text[..n - 1], LongestSuffix(words, text[..n]))|
  }

  lemma FirstTried(words: seq<Str>, w: Str)
    requires w in words
    ensures AtLeast(words, w, |w|) == {w}
  {
    assert w[|w| - |w|..] == w;
    forall v | v in AtLeast(words, w, |w|)
      ensures v == w
    {
      assert w[|w| - |v|..] == w;
    }
  }

  lemma SuffixOfSuffix(x: Str, v: Str, w: Str)
    requires IsSuffix(v, w)
    ensures IsSuffix(x, v) ==> IsSuffix(x, w)
    ensures IsSuffix(x, w) && |x| <= |v| ==> IsSuffix(x, v)
  {
    if |x| <= |v| {
      assert w[|w| - |v|..][|v| - |x|..] == w[|w| - |x|..];
    }
  }

  /** A known suffix shorter than `v` is no longer than the longest known suffix of `v` less a byte. */
  lemma NothingBetween(words: seq<Str>, w: Str, v: Str, x: Str)
    requires [] in words && IsSuffix(v, w) && v != [] && x in words && IsSuffix(x, w) && |x| < |v|
    requires |x| >= |LongestSuffix(words, v[1..])|
    ensures x == LongestSuffix(words, v[1..])
  {
    hide LongestSuffix;
    SuffixOfSuffix(x, v, w);
    assert IsSuffix(v[1..], v);
    SuffixOfSuffix(x, v[1..], v);
    KnownSuffixes(words, v[1..], x);
  }

  lemma FailIsSuffix(words: seq<Str>, w: Str, v: Str)
    requires [] in words && IsSuffix(v, w) && v != []
    ensures |LongestSuffix(words, v[1..])| < |v| && IsSuffix(LongestSuffix(words, v[1..]), w)
  {
    hide LongestSuffix;
    var u := LongestSuffix(words, v[1..]);
    assert IsSuffix(u, u) && IsSuffix(v[1..], v);
    KnownSuffixes(words, v[1..], u);
    SuffixOfSuffix(u, v[1..], v);
    SuffixOfSuffix(u, v, w);
  }

  /** The next word tried is the only one of its length or longer that has not been tried. */
  lemma NextTried(words: seq<Str>, w: Str, v: Str)
    requires [] in words && IsSuffix(v, w) && v != []
    ensures var u := LongestSuffix(words, v[1..]);
            && IsSuffix(u, w) && |u| < |v|
            && AtLeast(words, w, |u|) == AtLeast(words, w, |v|) + {u} && u !in AtLeast(words, w, |v|)
  {
    hide LongestSuffix, IsSuffix;
    var u := LongestSuffix(words, v[1..]);
    FailIsSuffix(words, w, v);
    forall x | x in words && IsSuffix(x, w) && |u| <= |x| < |v|
      ensures x == u
    {
      NothingBetween(words, w, v, x);
    }
  }

  /** Whether the whole text is looked at, or its longest known suffix only, the same words are tried; and
      one at least is. */
  lemma TriedAlike(words: seq<Str>, read: Str, d: Str)
    requires [] in words && |d| <= |LongestSuffix(words, read)| + 1
    ensures Tried(words, read, d) == Tried(words, LongestSuffix(words, read), d)
    ensures |Tried(words, read, d)| >= 1
  {
    var w := LongestSuffix(words, read);
    forall v | v in words
      ensures IsSuffix(v, read) <==> IsSuffix(v, w)
    {
      KnownSuffixes(words, read, v);
    }
    assert IsSuffix(w, w);
    assert w in Tried(words, read, d);
  }
}
