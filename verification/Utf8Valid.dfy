/** utf8.h utf8valid: what it accepts, and how that differs from RFC 3629. */
module Utf8Valid {
  import opened Strings
  import opened Pointers
  import opened Utf8Bits
  import opened Utf8
  import opened Utf8Rfc

  lemma ParsesStep(s: Str)
    requires s != [] && s[0] != 0 && WellFormed(s)
    ensures Announced(s[0]) <= |s|
    ensures Parses(s) <==> Parses(s[Announced(s[0])..])
  {
    hide Is2, Is3, Is4, Continues, IsAscii, Overlong2, Overlong3, Overlong4;
    AnnouncedFits(s);
  }

  /** A continuation byte behind the announced length spoils the string, well-formed or not. */
  lemma ContinuesBehind(s: Str)
    requires s != [] && Announced(s[0]) < |s| && Continues(s[Announced(s[0])])
    ensures !Parses(s)
  {
    hide Is2, Is3, Is4, Continues, IsAscii, Overlong2, Overlong3, Overlong4;
    ByteKinds(s[Announced(s[0])]);
  }

  /** Valid strings can be appended. */
  lemma {:induction false} ParsesAppend(a: Str, b: Str)
    requires Parses(a) && Parses(b)
    ensures Parses(a + b)
  {
    hide WellFormed, Announced, Decode, Continues;
    if a == [] {
      assert a + b == b;
    } else {
      AnnouncedFits(a);
      WellFormedLonger(a, b);
      ParsesAppend(a[Announced(a[0])..], b);
      assert (a + b)[Announced(a[0])..] == a[Announced(a[0])..] + b;
    }
  }

  lemma WellFormedLonger(a: Str, b: Str)
    requires a != [] && WellFormed(a)
    ensures WellFormed(a + b) && (a + b)[0] == a[0]
  {
    hide Is2, Is3, Is4, Continues, IsAscii, Overlong2, Overlong3, Overlong4;
  }

  /** The bytes of one code point are valid on their own. */
  lemma PieceParses(s: Str)
    requires s != [] && s[0] != 0 && WellFormed(s)
    ensures Announced(s[0]) <= |s| && Parses(s[..Announced(s[0])])
  {
    hide Is2, Is3, Is4, Continues, IsAscii, Overlong2, Overlong3, Overlong4;
    AnnouncedFits(s);
    assert s[..Announced(s[0])][Announced(s[0])..] == [];
  }

  // ---- where a string goes wrong ----

  ghost predicate ValidUpTo(s: Str, k: nat) {
    k <= |s| && Parses(s[..k])
  }

  /** A continuation byte behind a code point of more than one byte that starts at `i`. */
  ghost predicate RunsOn(s: Str, i: nat)
    requires i < |s|
  {
    Announced(s[i]) > 1 && i + Announced(s[i]) < |s| && Continues(s[i + Announced(s[i])])
  }

  /** Everything before `p` is valid, and no code point there is spoilt by the byte behind it. */
  ghost predicate NoFault(s: Str, p: nat) {
    p <= |s| && ValidUpTo(s, p) && forall i: nat :: i < p && ValidUpTo(s, i) ==> !RunsOn(s, i)
  }

  /** `p` is the first place where the string goes wrong: up to no later position is it valid, unless the
      code point at `p` is only spoilt by the byte behind it. */
  ghost predicate FirstFault(s: Str, p: nat) {
    && p < |s| && NoFault(s, p)
    && forall k: nat :: p < k && ValidUpTo(s, k) ==> k == p + Announced(s[p]) && RunsOn(s, p)
  }

  /** There is at most one such position. */
  lemma OneFirstFault(s: Str, p: nat, q: nat)
    requires FirstFault(s, p) && FirstFault(s, q)
    ensures p == q
  {
  }

  /** Reading is deterministic: what lies between two positions up to which a string is valid, is valid. */
  lemma {:induction false} BetweenParses(s: Str, i: nat, k: nat)
    requires i <= k && ValidUpTo(s, i) && ValidUpTo(s, k)
    ensures Parses(s[i..k])
    decreases i
  {
    hide WellFormed, Announced;
    if i == 0 {
      assert s[0..k] == s[..k];
    } else {
      AnnouncedFits(s[..i]);
      var n := Announced(s[0]);
      assert s[..i][0] == s[0] == s[..k][0];
      assert s[..i][n..] == s[n..][..i - n] && s[..k][n..] == s[n..][..k - n];
      BetweenParses(s[n..], i - n, k - n);
      assert s[n..][i - n..k - n] == s[i..k];
    }
  }

  /** The next position up to which a string is valid is one code point further, if the bytes there
      are well-formed; otherwise there is none. */
  lemma NextBoundary(s: Str, i: nat, k: nat)
    requires i < k && ValidUpTo(s, i) && ValidUpTo(s, k)
    ensures WellFormed(s[i..]) && i + Announced(s[i]) <= k && Parses(s[i + Announced(s[i])..k])
  {
    BetweenParses(s, i, k);
    var piece := s[i..k];
    assert piece + s[k..] == s[i..] && piece[0] == s[i];
    hide WellFormed, Announced;
    WellFormedLonger(piece, s[k..]);
    AnnouncedFits(piece);
    assert piece[Announced(s[i])..] == s[i + Announced(s[i])..k];
  }

  lemma StartsRight(s: Str)
    requires Parses(s) && s != []
    ensures !Continues(s[0])
  {
    hide Is2, Is3, Is4, Continues, IsAscii, Overlong2, Overlong3, Overlong4;
    ByteKinds(s[0]);
  }

  /** Where a round of the loop fails, no later position is one up to which the string is valid, except
      the one directly behind a code point spoilt by the byte behind it. */
  lemma NothingLater(s: Str, i: nat, k: nat)
    requires i < k && ValidUpTo(s, i) && ValidUpTo(s, k) && (!WellFormed(s[i..]) || RunsOn(s, i))
    ensures k == i + Announced(s[i]) && RunsOn(s, i)
  {
    NextBoundary(s, i, k);
    hide WellFormed, Parses, Announced, Continues;
    var j := i + Announced(s[i]);
    if j < k {
      StartsRight(s[j..k]);
    }
  }

  /** A well-formed piece ends the valid part one code point later. */
  lemma OneMore(s: Str, i: nat, k: nat)
    requires i < |s| && s[i] != 0 && ValidUpTo(s, i) && WellFormed(s[i..]) && k == Announced(s[i])
    ensures i + k <= |s| && ValidUpTo(s, i + k) && (Parses(s[i..]) <==> Parses(s[i + k..]))
  {
    ParsesStep(s[i..]);
    PieceParses(s[i..]);
    hide Parses, WellFormed, Announced;
    assert s[i..][k..] == s[i + k..] && s[i..][..k] == s[i..i + k];
    ParsesAppend(s[..i], s[i..i + k]);
    assert s[..i] + s[i..i + k] == s[..i + k];
  }

  /** utf8valid: null exactly for the encodings of sequences of code points; otherwise the first place
      where the string goes wrong. No byte behind the terminator is read. A rejected string is not UTF-8
      by RFC 3629 either; an accepted one is, unless it decodes to a surrogate or to a value of 0x110000
      or more. */
  method Valid(s: Str) returns (r: Ptr)
    requires NulFree(s)
    ensures r == Null <==> Parses(s)
    ensures r != Null ==> FirstFault(s, r.id) && !Rfc(s)
    ensures r == Null ==> (Rfc(s) <==> AllScalar(DecodeAll(s)))
  {
    RfcIsScalar(s);
    hide Rfc, DecodeAll, AllScalar, Parses, Decode, WellFormed, Announced, RunsOn, NoFault, FirstFault;
    var i: nat := 0;
    NothingParses(s);
    while i < |s|
      invariant i <= |s| && NoFault(s, i) && (Parses(s) <==> Parses(s[i..]))
    {
      var step: nat := Check(s, i);
      if step == 0 {
        FaultFound(s, i);
        return Ptr.At(i);
      }
      RoundPasses(s, i, step);
      i := i + step;
    }
    return Null;
  }

  lemma FaultFound(s: Str, i: nat)
    requires i < |s| && NoFault(s, i) && (!WellFormed(s[i..]) || RunsOn(s, i))
    ensures FirstFault(s, i)
  {
    hide WellFormed, ValidUpTo, Announced, RunsOn;
    forall k: nat | i < k && ValidUpTo(s, k)
      ensures k == i + Announced(s[i]) && RunsOn(s, i)
    {
      NothingLater(s, i, k);
    }
  }

  lemma RoundPasses(s: Str, i: nat, k: nat)
    requires i < |s| && s[i] != 0 && NoFault(s, i) && WellFormed(s[i..]) && !RunsOn(s, i) && k == Announced(s[i])
    ensures i + k <= |s| && NoFault(s, i + k) && (Parses(s[i..]) <==> Parses(s[i + k..]))
  {
    hide WellFormed, Parses, ValidUpTo, Announced, RunsOn;
    NoneWithin(s, i);
    OneMore(s, i, k);
  }

  /** Inside a code point the string is not valid up to there. */
  lemma NoneWithin(s: Str, i: nat)
    requires i < |s| && ValidUpTo(s, i)
    ensures forall j: nat :: i < j < i + Announced(s[i]) ==> !ValidUpTo(s, j)
  {
    hide WellFormed, ValidUpTo, Announced;
    forall j: nat | i < j < i + Announced(s[i])
      ensures !ValidUpTo(s, j)
    {
      if ValidUpTo(s, j) {
        NextBoundary(s, i, j);
      }
    }
  }

  lemma NothingParses(s: Str)
    ensures Parses([]) && NoFault(s, 0) && s[0..] == s && s[|s|..] == []
  {
  }

  /** The body of the loop of utf8valid: the length of the code point, or 0 where it returns. */
  method Check(s: Str, i: nat) returns (step: nat)
    requires NulFree(s) && i < |s|
    ensures step > 0 <==> WellFormed(s[i..]) && !RunsOn(s, i)
    ensures step > 0 ==> step == Announced(s[i])
    ensures step == 0 ==> !Parses(s[i..])
  {
    hide Parses, Is2, Is3, Is4, Continues, IsAscii, Overlong2, Overlong3, Overlong4;
    NulDoesNotContinue();
    IllFormed(s[i..]);
    if Is4(s[i]) {
      if !Continues(Strings.At(s, i + 1)) || !Continues(Strings.At(s, i + 2)) || !Continues(Strings.At(s, i + 3)) {
        return 0;
      }
      if Continues(Strings.At(s, i + 4)) {
        ContinuesBehind(s[i..]);
        return 0;
      }
      if Overlong4(s[i], s[i + 1]) {
        return 0;
      }
      return 4;
    } else if Is3(s[i]) {
      if !Continues(Strings.At(s, i + 1)) || !Continues(Strings.At(s, i + 2)) {
        return 0;
      }
      if Continues(Strings.At(s, i + 3)) {
        ContinuesBehind(s[i..]);
        return 0;
      }
      if Overlong3(s[i], s[i + 1]) {
        return 0;
      }
      return 3;
    } else if Is2(s[i]) {
      if !Continues(Strings.At(s, i + 1)) {
        return 0;
      }
      if Continues(Strings.At(s, i + 2)) {
        ContinuesBehind(s[i..]);
        return 0;
      }
      if Overlong2(s[i]) {
        return 0;
      }
      return 2;
    } else if IsAscii(s[i]) {
      return 1;
    }
    return 0;
  }

  lemma NulDoesNotContinue()
    ensures !Continues(0)
  {
  }

  lemma IllFormed(s: Str)
    ensures s != [] && !WellFormed(s) ==> !Parses(s)
  {
    hide WellFormed, Announced;
  }

  /** Exactly the encodings of sequences of code points pass, and each has one such sequence. */
  lemma ValidMeansEncoded(s: Str)
    ensures Parses(s) <==> exists cs :: AllCodes(cs) && EncodeAll(cs) == s
    ensures forall cs :: AllCodes(cs) && EncodeAll(cs) == s ==> Parses(s) && cs == DecodeAll(s)
  {
    hide Parses, DecodeAll, EncodeAll, AllCodes;
    if Parses(s) {
      ParsedIsEncoded(s);
    }
    forall cs | AllCodes(cs) && EncodeAll(cs) == s
      ensures Parses(s) && cs == DecodeAll(s)
    {
      EncodedParses(cs);
    }
  }
}
