/** utf8.h: encoding, decoding, validating, measuring and comparing UTF-8 strings. Like the code, and
    unlike section 3 of RFC 3629, it takes every value below 2^21 for a code point. */
module Utf8 {
  import opened Strings
  import opened Pointers
  import opened Utf8Bits

  /** utf8codepointsize. */
  function CodePointSize(c: Code): nat {
    if Fits1(c) then 1 else if Fits2(c) then 2 else if Fits3(c) then 3 else 4
  }

  /** The bytes utf8catcodepoint writes. */
  function Encode(c: Code): Str {
    if Fits1(c) then [Char(c)]
    else if Fits2(c) then [Lead2(c), Tail(c)]
    else if Fits3(c) then [Lead3(c), Tail6(c), Tail(c)]
    else [Lead4(c), Tail12(c), Tail6(c), Tail(c)]
  }

  /** The length the first byte announces. */
  function Announced(b: Byte): nat {
    if Is4(b) then 4 else if Is3(b) then 3 else if Is2(b) then 2 else 1
  }

  /** What utf8codepoint reads at the start of `s`; a lone byte is sign-extended. */
  function Decode(s: Str): Code
    requires s != [] && Announced(s[0]) <= |s|
  {
    if Is4(s[0]) then Join4(s[0], s[1], s[2], s[3])
    else if Is3(s[0]) then Join3(s[0], s[1], s[2])
    else if Is2(s[0]) then Join2(s[0], s[1])
    else if IsAscii(s[0]) then s[0] as bv32
    else 0xFFFFFF00 | (s[0] as bv32)
  }

  /** The bytes of one code point: continuation bytes, and no shorter encoding possible. */
  predicate WellFormed(s: Str)
    requires s != []
  {
    if Is4(s[0]) then
      |s| >= 4 && Continues(s[1]) && Continues(s[2]) && Continues(s[3]) && !Overlong4(s[0], s[1])
    else if Is3(s[0]) then
      |s| >= 3 && Continues(s[1]) && Continues(s[2]) && !Overlong3(s[0], s[1])
    else if Is2(s[0]) then
      |s| >= 2 && Continues(s[1]) && !Overlong2(s[0])
    else IsAscii(s[0])
  }

  // ---- one code point ----

  lemma EncodeWellFormed(c: Code)
    requires IsCode(c)
    ensures 1 <= |Encode(c)| == CodePointSize(c) == Announced(Encode(c)[0])
    ensures WellFormed(Encode(c)) && Decode(Encode(c)) == c && Encode(c)[0] != 0 && !Continues(Encode(c)[0])
    ensures forall i :: 0 < i < |Encode(c)| ==> Continues(Encode(c)[i]) && Encode(c)[i] != 0
  {
    hide Lead2, Lead3, Lead4, Tail, Tail6, Tail12, Join2, Join3, Join4, Is2, Is3, Is4, Continues, Char,
         IsAscii, Fits1, Fits2, Fits3, Overlong2, Overlong3, Overlong4;
    ByteKinds(Encode(c)[0]);
    if Fits1(c) {
      One(c);
    } else if Fits2(c) {
      Two(c);
      TailContinues(c);
    } else if Fits3(c) {
      Three(c);
      TailContinues(c);
    } else {
      Four(c);
      TailContinues(c);
    }
  }

  lemma Decodes4(s: Str)
    requires s != [] && s[0] != 0 && WellFormed(s) && Is4(s[0])
    ensures 4 <= |s| && IsCode(Decode(s)) && Encode(Decode(s)) == [s[0], s[1], s[2], s[3]]
  {
    hide Lead2, Lead3, Lead4, Tail, Tail6, Tail12, Join2, Join3, Join4, Is2, Is3, Is4, Continues, Char, IsCode,
         IsAscii, Fits1, Fits2, Fits3, Overlong2, Overlong3, Overlong4;
    ByteKinds(s[0]);
    FourBack(s[0], s[1], s[2], s[3]);
  }

  lemma Decodes3(s: Str)
    requires s != [] && s[0] != 0 && WellFormed(s) && Is3(s[0])
    ensures 3 <= |s| && IsCode(Decode(s)) && Encode(Decode(s)) == [s[0], s[1], s[2]]
  {
    hide Lead2, Lead3, Lead4, Tail, Tail6, Tail12, Join2, Join3, Join4, Is2, Is3, Is4, Continues, Char, IsCode,
         IsAscii, Fits1, Fits2, Fits3, Overlong2, Overlong3, Overlong4;
    ByteKinds(s[0]);
    ThreeBack(s[0], s[1], s[2]);
  }

  lemma Decodes2(s: Str)
    requires s != [] && s[0] != 0 && WellFormed(s) && Is2(s[0])
    ensures 2 <= |s| && IsCode(Decode(s)) && Encode(Decode(s)) == [s[0], s[1]]
  {
    hide Lead2, Lead3, Lead4, Tail, Tail6, Tail12, Join2, Join3, Join4, Is2, Is3, Is4, Continues, Char, IsCode,
         IsAscii, Fits1, Fits2, Fits3, Overlong2, Overlong3, Overlong4;
    ByteKinds(s[0]);
    TwoBack(s[0], s[1]);
  }

  lemma Decodes1(s: Str)
    requires s != [] && s[0] != 0 && WellFormed(s) && IsAscii(s[0])
    ensures 1 <= |s| && IsCode(Decode(s)) && Encode(Decode(s)) == [s[0]]
  {
    hide Lead2, Lead3, Lead4, Tail, Tail6, Tail12, Join2, Join3, Join4, Is2, Is3, Is4, Continues, Char, IsCode,
         IsAscii, Fits1, Fits2, Fits3, Overlong2, Overlong3, Overlong4;
    ByteKinds(s[0]);
    OneBack(s[0]);
  }

  /** What passes the tests is the encoding of what utf8codepoint reads. */
  lemma WellFormedDecodes(s: Str)
    requires s != [] && s[0] != 0 && WellFormed(s)
    ensures Announced(s[0]) <= |s| && IsCode(Decode(s)) && s[..Announced(s[0])] == Encode(Decode(s))
  {
    hide Encode, Decode, Is2, Is3, Is4, Continues, IsCode, IsAscii, Overlong2, Overlong3, Overlong4;
    ByteKinds(s[0]);
    if Is4(s[0]) {
      Decodes4(s);
    } else if Is3(s[0]) {
      Decodes3(s);
    } else if Is2(s[0]) {
      Decodes2(s);
    } else {
      Decodes1(s);
    }
  }

  // ---- strings of code points ----

  ghost predicate AllCodes(cs: seq<Code>) {
    forall i :: 0 <= i < |cs| ==> IsCode(cs[i])
  }

  /** Appending code point after code point. */
  function EncodeAll(cs: seq<Code>): Str {
    if cs == [] then [] else Encode(cs[0]) + EncodeAll(cs[1..])
  }

  /** The string is a sequence of well-formed encodings. */
  predicate Parses(s: Str) {
    s == [] || (s[0] != 0 && WellFormed(s) && Parses(s[Announced(s[0])..]))
  }

  /** What reading code point after code point gives. */
  function DecodeAll(s: Str): (cs: seq<Code>)
    requires Parses(s)
    ensures |cs| <= |s|
  {
    if s == [] then [] else [Decode(s)] + DecodeAll(s[Announced(s[0])..])
  }

  lemma {:induction false} ParsedIsEncoded(s: Str)
    requires Parses(s)
    ensures AllCodes(DecodeAll(s)) && EncodeAll(DecodeAll(s)) == s
  {
    hide IsCode, Encode, WellFormed, Announced, Decode;
    if s != [] {
      AnnouncedFits(s);
      var n := Announced(s[0]);
      WellFormedDecodes(s);
      ParsedIsEncoded(s[n..]);
      assert DecodeAll(s) == [Decode(s)] + DecodeAll(s[n..]) && s == s[..n] + s[n..];
      hide DecodeAll, Parses;
      EncodeAllCons(Decode(s), DecodeAll(s[n..]));
    }
  }

  lemma EncodeAllCons(c: Code, cs: seq<Code>)
    ensures EncodeAll([c] + cs) == Encode(c) + EncodeAll(cs)
    ensures IsCode(c) && AllCodes(cs) ==> AllCodes([c] + cs)
  {
    hide Encode, IsCode;
    assert ([c] + cs)[1..] == cs;
  }

  lemma AnnouncedFits(s: Str)
    requires s != [] && WellFormed(s)
    ensures 1 <= Announced(s[0]) <= |s|
  {
  }

  /** Only the first bytes matter for the tests and the value. */
  lemma PrefixDecides(s: Str, rest: Str)
    requires s != [] && WellFormed(s) && |s| == Announced(s[0])
    ensures (s + rest)[0] == s[0] && WellFormed(s + rest) && Decode(s + rest) == Decode(s)
    ensures (s + rest)[|s|..] == rest
  {
    hide Join2, Join3, Join4, Is2, Is3, Is4, Continues, IsAscii, Overlong2, Overlong3, Overlong4;
    var t := s + rest;
    assert forall i :: 0 <= i < |s| ==> t[i] == s[i];
  }

  /** Reading back what was written gives the code points, so an encoding has only one meaning. */
  lemma {:induction false} EncodedParses(cs: seq<Code>)
    requires AllCodes(cs)
    ensures Parses(EncodeAll(cs)) && DecodeAll(EncodeAll(cs)) == cs
  {
    hide IsCode, Encode, WellFormed, Announced, Decode, CodePointSize, Continues;
    if cs != [] {
      EncodedParses(cs[1..]);
      EncodeWellFormed(cs[0]);
      AnnouncedFits(Encode(cs[0]));
      PrefixDecides(Encode(cs[0]), EncodeAll(cs[1..]));
    }
  }

  /** utf8codepoint: the code point at position `i` and the position behind it. The bytes it reads may
      include the terminator. */
  method CodePoint(s: Str, i: nat) returns (c: Code, j: nat)
    requires i <= |s| && i + Announced(Strings.At(s, i)) <= |s| + 1
    ensures c == Decode((s + [0])[i..]) && j == i + Announced(Strings.At(s, i))
    ensures j <= |s| ==> c == Decode(s[i..])
  {
    hide Join2, Join3, Join4, Is2, Is3, Is4, IsAscii;
    var b := Strings.At(s, i);
    assert forall k: nat :: i <= k <= |s| ==> (s + [0])[i..][k - i] == Strings.At(s, k);
    if Is4(b) {
      c := Join4(b, Strings.At(s, i + 1), Strings.At(s, i + 2), Strings.At(s, i + 3));
      j := i + 4;
    } else if Is3(b) {
      c, j := Join3(b, Strings.At(s, i + 1), Strings.At(s, i + 2)), i + 3;
    } else if Is2(b) {
      c, j := Join2(b, Strings.At(s, i + 1)), i + 2;
    } else {
      c, j := if IsAscii(b) then b as bv32 else 0xFFFFFF00 | (b as bv32), i + 1;
    }
  }

  /** What is read at bytes that start no code point, 80..BF and F8..FF: one byte, sign-extended to 32 bits. */
  lemma LoneByte(s: Str)
    requires s != [] && (0x80 <= s[0] < 0xC0 || s[0] >= 0xF8)
    ensures Announced(s[0]) == 1 && Decode(s) as int == 0x1_0000_0000 - 0x100 + s[0] as int
  {
  }

  /** What is read behind the other bytes, whatever the following bytes are: their low six bits count. */
  lemma ReadValue(s: Str)
    requires s != [] && Announced(s[0]) <= |s| && (s[0] < 0x80 || 0xC0 <= s[0] < 0xF8)
    ensures s[0] < 0x80 ==> Announced(s[0]) == 1 && Decode(s) == s[0] as bv32
    ensures 0xC0 <= s[0] < 0xE0 ==> Announced(s[0]) == 2 && Decode(s) == Value2(s[0], s[1])
    ensures 0xE0 <= s[0] < 0xF0 ==> Announced(s[0]) == 3 && Decode(s) == Value3(s[0], s[1], s[2])
    ensures 0xF0 <= s[0] ==> Announced(s[0]) == 4 && Decode(s) == Value4(s[0], s[1], s[2], s[3])
  {
    hide Join2, Join3, Join4, Is2, Is3, Is4, IsAscii, Value2, Value3, Value4;
    KindRanges(s[0]);
    if 0xC0 <= s[0] < 0xE0 {
      JoinedValue2(s[0], s[1]);
    } else if 0xE0 <= s[0] < 0xF0 {
      JoinedValue3(s[0], s[1], s[2]);
    } else if 0xF0 <= s[0] {
      JoinedValue4(s[0], s[1], s[2], s[3]);
    }
  }

  /** Consecutive elements written from position `s` on. */
  method Write<T>(str: array<T>, s: nat, bytes: seq<T>)
    requires s + |bytes| <= str.Length
    modifies str
    ensures str[..] == old(str[..s]) + bytes + old(str[s + |bytes|..])
  {
    for i := 0 to |bytes|
      invariant str[..s] == old(str[..s]) && str[s..s + i] == bytes[..i] && str[s + i..] == old(str[s + i..])
    {
      str[s + i] := bytes[i];
    }
    assert str[..] == str[..s] + str[s..s + |bytes|] + str[s + |bytes|..];
  }

  /** utf8catcodepoint: null, and nothing written, if there is not enough room. */
  method CatCodePoint(str: array<Byte>, s: nat, chr: Code, n: nat) returns (r: Ptr)
    requires s + n <= str.Length
    modifies str
    ensures n < CodePointSize(chr) ==> r == Null && str[..] == old(str[..])
    ensures n >= CodePointSize(chr) ==>
              && r == Ptr.At(s + |Encode(chr)|) && |Encode(chr)| <= n
              && str[..] == old(str[..s]) + Encode(chr) + old(str[s + |Encode(chr)|..])
  {
    hide Char, Lead2, Lead3, Lead4, Tail, Tail6, Tail12, Fits1, Fits2, Fits3;
    if Fits1(chr) {
      if n < 1 {
        return Null;
      }
      Write(str, s, [Char(chr)]);
      r := Ptr.At(s + 1);
    } else if Fits2(chr) {
      if n < 2 {
        return Null;
      }
      Write(str, s, [Lead2(chr), Tail(chr)]);
      r := Ptr.At(s + 2);
    } else if Fits3(chr) {
      if n < 3 {
        return Null;
      }
      Write(str, s, [Lead3(chr), Tail6(chr), Tail(chr)]);
      r := Ptr.At(s + 3);
    } else {
      if n < 4 {
        return Null;
      }
      Write(str, s, [Lead4(chr), Tail12(chr), Tail6(chr), Tail(chr)]);
      r := Ptr.At(s + 4);
    }
  }

  // ---- length ----

  /** Stepping over announced lengths lands on the terminator. */
  predicate LandsOnEnd(s: Str) {
    s == [] || (Announced(s[0]) <= |s| && LandsOnEnd(s[Announced(s[0])..]))
  }

  /** The number of those steps. */
  function Steps(s: Str): nat
    requires LandsOnEnd(s)
  {
    if s == [] then 0 else 1 + Steps(s[Announced(s[0])..])
  }

  /** A valid string is walked code point by code point. */
  lemma {:induction false} ParsedLands(s: Str)
    requires Parses(s)
    ensures LandsOnEnd(s) && Steps(s) == |DecodeAll(s)|
  {
    hide WellFormed, Announced, Decode;
    if s != [] {
      AnnouncedFits(s);
      ParsedLands(s[Announced(s[0])..]);
    }
  }

  /** utf8len: the walk either lands on the terminator, and has counted its steps, or it steps over
      the terminator and would read on behind it (`inside` is false). */
  method Len(s: Str) returns (length: nat, inside: bool)
    ensures inside <==> LandsOnEnd(s)
    ensures inside ==> length == Steps(s)
    ensures Parses(s) ==> inside && length == |DecodeAll(s)|
  {
    hide WellFormed, Parses, Decode, DecodeAll, Is2, Is3, Is4;
    var i: nat := 0;
    length := 0;
    assert s[0..] == s;
    while i < |s|
      invariant LandsOnEnd(s) <==> i <= |s| && LandsOnEnd(s[i..])
      invariant LandsOnEnd(s) ==> length + Steps(s[i..]) == Steps(s)
    {
      if i + Announced(s[i]) <= |s| {
        assert s[i..][Announced(s[i])..] == s[i + Announced(s[i])..];
      }
      if Is4(s[i]) {
        i := i + 4;
      } else if Is3(s[i]) {
        i := i + 3;
      } else if Is2(s[i]) {
        i := i + 2;
      } else {
        i := i + 1;
      }
      length := length + 1;
    }
    inside := i == |s|;
    if Parses(s) {
      ParsedLands(s);
    }
  }
}
