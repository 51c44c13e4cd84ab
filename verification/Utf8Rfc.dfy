/** The grammar of section 4 of RFC 3629, and the strings on which it and the tests of utf8.h part. */
module Utf8Rfc {
  import opened Strings
  import opened Utf8Bits
  import opened Utf8

  /** UTF8-tail. */
  predicate RfcTail(b: Byte) {
    0x80 <= b <= 0xBF
  }

  /** UTF8-1. */
  predicate Rfc1(x: Byte) {
    x <= 0x7F
  }

  /** UTF8-2. */
  predicate Rfc2(x: Byte, y: Byte) {
    0xC2 <= x <= 0xDF && RfcTail(y)
  }

  /** UTF8-3. */
  predicate Rfc3(x: Byte, y: Byte, z: Byte) {
    || (x == 0xE0 && 0xA0 <= y <= 0xBF && RfcTail(z))
    || (0xE1 <= x <= 0xEC && RfcTail(y) && RfcTail(z))
    || (x == 0xED && 0x80 <= y <= 0x9F && RfcTail(z))
    || (0xEE <= x <= 0xEF && RfcTail(y) && RfcTail(z))
  }

  /** UTF8-4. */
  predicate Rfc4(x: Byte, y: Byte, z: Byte, w: Byte) {
    || (x == 0xF0 && 0x90 <= y <= 0xBF && RfcTail(z) && RfcTail(w))
    || (0xF1 <= x <= 0xF3 && RfcTail(y) && RfcTail(z) && RfcTail(w))
    || (x == 0xF4 && 0x80 <= y <= 0x8F && RfcTail(z) && RfcTail(w))
  }

  /** UTF8-char: the first `n` bytes. */
  predicate RfcChar(s: Str, n: nat) {
    || (n == 1 <= |s| && Rfc1(s[0]))
    || (n == 2 <= |s| && Rfc2(s[0], s[1]))
    || (n == 3 <= |s| && Rfc3(s[0], s[1], s[2]))
    || (n == 4 <= |s| && Rfc4(s[0], s[1], s[2], s[3]))
  }

  /** UTF8-octets. */
  predicate Rfc(s: Str) {
    s == [] || exists n: nat :: 0 < n <= |s| && RfcChar(s, n) && Rfc(s[n..])
  }

  /** A Unicode scalar value: below 0x110000 and no surrogate. */
  predicate Scalar(c: Code) {
    c < 0xD800 || 0xE000 <= c < 0x110000
  }

  ghost predicate AllScalar(cs: seq<Code>) {
    forall i :: 0 <= i < |cs| ==> Scalar(cs[i])
  }

  // ---- one code point ----

  lemma OctetOne(x: Byte)
    ensures Rfc1(x) <==> IsAscii(x)
    ensures IsAscii(x) ==> Scalar(x as bv32)
  {
  }

  lemma OctetsTwo(x: Byte, y: Byte)
    ensures Rfc2(x, y) <==> Is2(x) && Continues(y) && !Overlong2(x)
    ensures Scalar(Join2(x, y))
  {
  }

  lemma OctetsThree(x: Byte, y: Byte, z: Byte)
    ensures Rfc3(x, y, z) <==> Is3(x) && Continues(y) && Continues(z) && !Overlong3(x, y) && Scalar(Join3(x, y, z))
  {
  }

  lemma OctetsFour(x: Byte, y: Byte, z: Byte, w: Byte)
    ensures Rfc4(x, y, z, w) <==>
            Is4(x) && Continues(y) && Continues(z) && Continues(w) && !Overlong4(x, y) && Scalar(Join4(x, y, z, w))
  {
  }

  /** The grammar takes a code point exactly when it passes the tests and is a scalar value. */
  lemma CharIsScalar(s: Str, n: nat)
    requires s != []
    ensures RfcChar(s, n) <==> WellFormed(s) && n == Announced(s[0]) && Scalar(Decode(s))
  {
    hide Rfc1, Rfc2, Rfc3, Rfc4, Scalar, Join2, Join3, Join4, Is2, Is3, Is4, Continues, IsAscii,
         Overlong2, Overlong3, Overlong4;
    ByteKinds(s[0]);
    OctetOne(s[0]);
    if |s| >= 2 {
      OctetsTwo(s[0], s[1]);
    }
    if |s| >= 3 {
      OctetsThree(s[0], s[1], s[2]);
    }
    if |s| >= 4 {
      OctetsFour(s[0], s[1], s[2], s[3]);
    }
  }

  lemma RfcStep(s: Str)
    requires s != []
    ensures Rfc(s) <==> WellFormed(s) && Scalar(Decode(s)) && Rfc(s[Announced(s[0])..])
  {
    hide RfcChar, WellFormed, Announced, Decode, Scalar;
    if WellFormed(s) {
      AnnouncedFits(s);
    }
    forall n: nat
      ensures RfcChar(s, n) <==> WellFormed(s) && n == Announced(s[0]) && Scalar(Decode(s))
    {
      CharIsScalar(s, n);
    }
  }

  // ---- whole strings ----

  /** RFC 3629 allows exactly the strings that pass the tests and decode to scalar values only. */
  lemma {:induction false} RfcIsScalar(s: Str)
    requires NulFree(s)
    ensures Rfc(s) <==> Parses(s) && AllScalar(DecodeAll(s))
  {
    hide Rfc, WellFormed, Announced, Decode, Scalar;
    if s == [] {
      EmptyIsRfc();
    } else {
      RfcStep(s);
      if WellFormed(s) {
        AnnouncedFits(s);
        RfcIsScalar(s[Announced(s[0])..]);
        if Parses(s) {
          AllScalarCons(Decode(s), DecodeAll(s[Announced(s[0])..]));
        }
      }
    }
  }

  lemma AllScalarCons(c: Code, cs: seq<Code>)
    ensures AllScalar([c] + cs) <==> Scalar(c) && AllScalar(cs)
  {
    var all := [c] + cs;
    assert all[0] == c && forall i: nat :: i < |cs| ==> all[i + 1] == cs[i];
  }

  lemma EmptyIsRfc()
    ensures Rfc([])
  {
  }

  /** The RFC strings are exactly the encodings of sequences of scalar values. */
  lemma RfcMeansEncoded(s: Str)
    requires NulFree(s)
    ensures Rfc(s) <==> exists cs :: AllCodes(cs) && AllScalar(cs) && EncodeAll(cs) == s
  {
    hide Rfc, Parses, DecodeAll, EncodeAll, AllCodes, AllScalar;
    RfcIsScalar(s);
    if Rfc(s) {
      ParsedIsEncoded(s);
    }
    forall cs | AllCodes(cs) && AllScalar(cs) && EncodeAll(cs) == s
      ensures Rfc(s)
    {
      EncodedParses(cs);
    }
  }

  /** One string of each kind the RFC forbids and the tests of utf8.h let through: a surrogate, and
      the first value above the Unicode range. */
  lemma BeyondRfc()
    ensures var s: Str := [0xED, 0xA0, 0x80]; Parses(s) && DecodeAll(s) == [0xD800] && !Rfc(s)
    ensures var s: Str := [0xF4, 0x90, 0x80, 0x80]; Parses(s) && DecodeAll(s) == [0x110000] && !Rfc(s)
  {
  }
}
