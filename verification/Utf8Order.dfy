/** utf8.h utf8cmp: comparing the bytes of valid strings compares their code points. */
module Utf8Order {
  import opened Strings
  import opened Order
  import opened Utf8Bits
  import opened Utf8

  /** The lexicographic order of code point sequences. */
  function CmpCodes(a: seq<Code>, b: seq<Code>): int {
    if a == [] then (if b == [] then 0 else -1)
    else if b == [] then 1
    else Then(CmpCode(a[0], b[0]), CmpCodes(a[1..], b[1..]))
  }

  lemma CmpCons(x: Byte, y: Byte, a: Str, b: Str)
    ensures StringCmp([x] + a, [y] + b) == Then(CmpByte(x, y), StringCmp(a, b))
  {
  }

  /** The comparison of encodings of the same length, byte by byte. */
  ghost function Outcome(c: Code, d: Code): int
  {
    if Fits1(c) && Fits1(d) then CmpByte(Char(c), Char(d))
    else if !Fits1(c) && Fits2(c) && !Fits1(d) && Fits2(d) then Outcome2(c, d)
    else if !Fits2(c) && Fits3(c) && !Fits2(d) && Fits3(d) then Outcome3(c, d)
    else if !Fits3(c) && !Fits3(d) then Outcome4(c, d)
    else if CodePointSize(c) < CodePointSize(d) then -1
    else 1
  }

  /** Kinds of the first bytes. */
  lemma LeadKinds(c: Code)
    requires IsCode(c)
    ensures Encode(c) != []
    ensures CodePointSize(c) == 1 ==> IsAscii(Encode(c)[0])
    ensures CodePointSize(c) == 2 ==> Is2(Encode(c)[0])
    ensures CodePointSize(c) == 3 ==> Is3(Encode(c)[0])
    ensures CodePointSize(c) == 4 ==> Is4(Encode(c)[0])
  {
    hide Fits1, Fits2, Fits3, Char, Lead2, Lead3, Lead4, Tail, Tail6, Tail12, Is2, Is3, Is4, IsAscii;
    LongerIsLarger(c, c);
    if Fits1(c) {
      One(c);
    } else if Fits2(c) {
      Two(c);
    } else if Fits3(c) {
      Three(c);
    } else {
      Four(c);
    }
  }

  /** Longer encodings start with larger bytes and stand for larger code points. */
  lemma LeadsOrdered(c: Code, d: Code)
    requires IsCode(c) && IsCode(d) && CodePointSize(c) < CodePointSize(d)
    ensures Encode(c) != [] && Encode(d) != [] && CmpByte(Encode(c)[0], Encode(d)[0]) == -1
    ensures CmpByte(Encode(d)[0], Encode(c)[0]) == 1
    ensures d > c
  {
    hide Fits1, Fits2, Fits3, Encode, Is2, Is3, Is4, IsAscii;
    LeadKinds(c);
    LeadKinds(d);
    ByteRanges(Encode(c)[0], Encode(d)[0]);
    LongerIsLarger(c, d);
    LongerIsLarger(d, d);
  }

  lemma OutcomeAbove(c: Code, d: Code)
    requires IsCode(c) && IsCode(d) && Outcome(c, d) > 0
    ensures c > d
  {
    hide Fits1, Fits2, Fits3, Char, CmpByte, Outcome2, Outcome3, Outcome4, Encode;
    LongerIsLarger(c, d);
    LongerIsLarger(d, c);
    if CodePointSize(c) < CodePointSize(d) {
      LeadsOrdered(c, d);
    } else if CodePointSize(c) > CodePointSize(d) {
      LeadsOrdered(d, c);
    } else if Fits1(c) {
      ByteOutcome(Char(c), Char(d));
      Differ1(c, d);
    } else if Fits2(c) {
      Above2(c, d);
    } else if Fits3(c) {
      Above3(c, d);
    } else {
      Above4(c, d);
    }
  }

  lemma OutcomeFlips(c: Code, d: Code)
    requires IsCode(c) && IsCode(d)
    ensures Outcome(d, c) == -Outcome(c, d)
  {
    hide Fits1, Fits2, Fits3, Char, CmpByte, Encode, Lead2, Lead3, Lead4, Tail, Tail6, Tail12;
    LongerIsLarger(c, d);
    LongerIsLarger(d, c);
    ByteOutcome(Char(c), Char(d));
    ByteOutcome(Lead2(c), Lead2(d));
    ByteOutcome(Lead3(c), Lead3(d));
    ByteOutcome(Lead4(c), Lead4(d));
    ByteOutcome(Tail12(c), Tail12(d));
    ByteOutcome(Tail6(c), Tail6(d));
    ByteOutcome(Tail(c), Tail(d));
  }

  lemma OutcomeOther(c: Code, d: Code)
    requires CodePointSize(c) != CodePointSize(d)
    ensures Outcome(c, d) == if CodePointSize(c) < CodePointSize(d) then -1 else 1
  {
    hide Fits1, Fits2, Fits3, Char, CmpByte, Encode, Outcome2, Outcome3, Outcome4;
    LongerIsLarger(c, c);
    LongerIsLarger(d, d);
  }

  lemma OutcomeSame(c: Code, d: Code)
    requires IsCode(c) && IsCode(d) && Outcome(c, d) == 0
    ensures c == d
  {
    hide Fits1, Fits2, Fits3, Char, CmpByte, Encode, Outcome2, Outcome3, Outcome4;
    LongerIsLarger(c, c);
    LongerIsLarger(d, d);
    if Fits1(c) {
      ByteOutcome(Char(c), Char(d));
      Same1(c, d);
    } else if Fits2(c) {
      Same2(c, d);
    } else if Fits3(c) {
      Same3(c, d);
    } else {
      Same4(c, d);
    }
  }

  lemma OutcomeRange(c: Code, d: Code)
    ensures -1 <= Outcome(c, d) <= 1
  {
    hide Fits1, Fits2, Fits3, Char, CmpByte, Encode, Lead2, Lead3, Lead4, Tail, Tail6, Tail12;
  }

  lemma OutcomeIsOrder(c: Code, d: Code)
    requires IsCode(c) && IsCode(d)
    ensures Outcome(c, d) == CmpCode(c, d)
  {
    hide Outcome, IsCode, CmpCode;
    OutcomeFlips(c, d);
    OutcomeRange(c, d);
    if Outcome(c, d) > 0 {
      OutcomeAbove(c, d);
      AboveMeans(c, d);
    } else if Outcome(c, d) < 0 {
      OutcomeAbove(d, c);
      AboveMeans(d, c);
    } else {
      OutcomeZero(c, d);
    }
  }

  lemma OutcomeZero(c: Code, d: Code)
    requires IsCode(c) && IsCode(d) && Outcome(c, d) == 0
    ensures CmpCode(c, d) == 0
  {
    OutcomeSame(c, d);
  }

  // ---- the comparison of strings ----

  lemma Append2<T>(x: T, y: T, a: seq<T>)
    ensures [x, y] + a == [x] + ([y] + a)
  {
  }

  lemma Append3<T>(x: T, y: T, z: T, a: seq<T>)
    ensures [x, y, z] + a == [x] + ([y] + ([z] + a))
  {
  }

  lemma Append4<T>(x: T, y: T, z: T, w: T, a: seq<T>)
    ensures [x, y, z, w] + a == [x] + ([y] + ([z] + ([w] + a)))
  {
  }

  /** Two encodings of the same length, each followed by more. */
  lemma SameLength(c: Code, d: Code, a: Str, b: Str)
    requires IsCode(c) && IsCode(d) && CodePointSize(c) == CodePointSize(d)
    ensures StringCmp(Encode(c) + a, Encode(d) + b) == Then(Outcome(c, d), StringCmp(a, b))
  {
    hide Fits1, Fits2, Fits3, Char, Lead2, Lead3, Lead4, Tail, Tail6, Tail12, CmpByte, StringCmp, IsCode;
    LongerIsLarger(c, c);
    LongerIsLarger(d, d);
    if Fits1(c) {
      CmpCons(Char(c), Char(d), a, b);
    } else {
      CmpCons(Tail(c), Tail(d), a, b);
      CmpCons(Tail6(c), Tail6(d), [Tail(c)] + a, [Tail(d)] + b);
      if Fits2(c) {
        Append2(Lead2(c), Tail(c), a);
        Append2(Lead2(d), Tail(d), b);
        CmpCons(Lead2(c), Lead2(d), [Tail(c)] + a, [Tail(d)] + b);
      } else if Fits3(c) {
        Append3(Lead3(c), Tail6(c), Tail(c), a);
        Append3(Lead3(d), Tail6(d), Tail(d), b);
        CmpCons(Lead3(c), Lead3(d), [Tail6(c)] + ([Tail(c)] + a), [Tail6(d)] + ([Tail(d)] + b));
      } else {
        Append4(Lead4(c), Tail12(c), Tail6(c), Tail(c), a);
        Append4(Lead4(d), Tail12(d), Tail6(d), Tail(d), b);
        CmpCons(Tail12(c), Tail12(d), [Tail6(c)] + ([Tail(c)] + a), [Tail6(d)] + ([Tail(d)] + b));
        CmpCons(Lead4(c), Lead4(d), [Tail12(c)] + ([Tail6(c)] + ([Tail(c)] + a)),
                [Tail12(d)] + ([Tail6(d)] + ([Tail(d)] + b)));
      }
    }
  }

  /** Two encodings of different lengths: the first bytes decide. */
  lemma OtherLength(c: Code, d: Code, a: Str, b: Str)
    requires IsCode(c) && IsCode(d) && CodePointSize(c) != CodePointSize(d)
    ensures StringCmp(Encode(c) + a, Encode(d) + b) == Outcome(c, d) != 0
  {
    hide Encode, CmpByte, StringCmp, IsCode, CodePointSize, Fits1, Fits2, Fits3, Outcome2, Outcome3, Outcome4;
    OutcomeOther(c, d);
    if CodePointSize(c) < CodePointSize(d) {
      LeadsOrdered(c, d);
    } else {
      LeadsOrdered(d, c);
    }
    HeadAndRest(Encode(c), a);
    HeadAndRest(Encode(d), b);
    CmpCons(Encode(c)[0], Encode(d)[0], Encode(c)[1..] + a, Encode(d)[1..] + b);
  }

  lemma HeadAndRest<T>(s: seq<T>, a: seq<T>)
    requires s != []
    ensures s + a == [s[0]] + (s[1..] + a)
  {
  }

  /** Comparing two encoded strings compares their code points. */
  lemma {:induction false} EncodedOrder(a: seq<Code>, b: seq<Code>)
    requires AllCodes(a) && AllCodes(b)
    ensures StringCmp(EncodeAll(a), EncodeAll(b)) == CmpCodes(a, b)
  {
    hide IsCode, Encode, Outcome, CmpCode, CodePointSize;
    if a != [] {
      EncodeWellFormed(a[0]);
    }
    if b != [] {
      EncodeWellFormed(b[0]);
    }
    if a != [] && b != [] {
      EncodedOrder(a[1..], b[1..]);
      OutcomeIsOrder(a[0], b[0]);
      if CodePointSize(a[0]) == CodePointSize(b[0]) {
        SameLength(a[0], b[0], EncodeAll(a[1..]), EncodeAll(b[1..]));
      } else {
        OtherLength(a[0], b[0], EncodeAll(a[1..]), EncodeAll(b[1..]));
      }
    }
  }

  /** utf8cmp, the same loop as string_cmp: on valid strings it orders the code point sequences. */
  method Cmp(s: Str, t: Str) returns (r: int)
    requires NulFree(s) && NulFree(t)
    ensures r == StringCmp(s, t)
    ensures Parses(s) && Parses(t) ==> r == CmpCodes(DecodeAll(s), DecodeAll(t))
  {
    hide Parses, DecodeAll, EncodeAll, AllCodes, CmpCodes, StringCmp;
    r := StringCmpLoop(s, t);
    if Parses(s) && Parses(t) {
      ParsedIsEncoded(s);
      ParsedIsEncoded(t);
      EncodedOrder(DecodeAll(s), DecodeAll(t));
    }
  }
}
