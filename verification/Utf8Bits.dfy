/** utf8.h, the bit level: the bytes of one code point and how they are put together again. */
module Utf8Bits {
  import opened Strings

  type Code = bv32

  predicate IsCode(c: Code) {
    0 < c < 0x200000
  }

  /** The tests that choose the length of an encoding; the code uses masks, see MaskTests. */
  predicate Fits1(c: Code) {
    c < 0x80
  }

  predicate Fits2(c: Code) {
    c < 0x800
  }

  predicate Fits3(c: Code) {
    c < 0x10000
  }

  /** The tests for bytes that encode a value for which fewer bytes would do. */
  predicate Overlong2(x: Byte) {
    0x1E & x == 0
  }

  predicate Overlong3(x: Byte, y: Byte) {
    0x0F & x == 0 && 0x20 & y == 0
  }

  predicate Overlong4(x: Byte, y: Byte) {
    0x07 & x == 0 && 0x30 & y == 0
  }

  /** A cast to char keeps the low eight bits. */
  function Char(x: bv32): Byte {
    (x & 0xFF) as bv8
  }

  function Lead2(c: Code): Byte {
    0xC0 | Char(c >> 6)
  }

  function Lead3(c: Code): Byte {
    0xE0 | Char(c >> 12)
  }

  function Lead4(c: Code): Byte {
    0xF0 | Char(c >> 18)
  }

  /** A continuation byte with the low six bits of its argument. */
  function Tail(x: bv32): Byte {
    0x80 | Char(x & 0x3F)
  }

  function Tail6(c: Code): Byte {
    Tail(c >> 6)
  }

  function Tail12(c: Code): Byte {
    Tail(c >> 12)
  }

  function Join2(x: Byte, y: Byte): Code {
    (((0x1F & x) as bv32) << 6) | ((0x3F & y) as bv32)
  }

  function Join3(x: Byte, y: Byte, z: Byte): Code {
    (((0x0F & x) as bv32) << 12) | (((0x3F & y) as bv32) << 6) | ((0x3F & z) as bv32)
  }

  function Join4(x: Byte, y: Byte, z: Byte, w: Byte): Code {
    (((0x07 & x) as bv32) << 18) | (((0x3F & y) as bv32) << 12) | (((0x3F & z) as bv32) << 6) | ((0x3F & w) as bv32)
  }

  predicate IsAscii(b: Byte) {
    0x80 & b == 0
  }

  predicate Is2(b: Byte) {
    0xE0 & b == 0xC0
  }

  predicate Is3(b: Byte) {
    0xF0 & b == 0xE0
  }

  predicate Is4(b: Byte) {
    0xF8 & b == 0xF0
  }

  predicate Continues(b: Byte) {
    0xC0 & b == 0x80
  }

  lemma MaskTests(c: Code)
    ensures c < 0x80 <==> 0xFFFFFF80 & c == 0
    ensures c < 0x800 <==> 0xFFFFF800 & c == 0
    ensures c < 0x10000 <==> 0xFFFF0000 & c == 0
  {
  }

  lemma ByteKinds(b: Byte)
    ensures Is4(b) ==> !Is3(b) && !Is2(b) && !Continues(b)
    ensures Is3(b) ==> !Is2(b) && !Continues(b)
    ensures Is2(b) ==> !Continues(b)
    ensures IsAscii(b) ==> !Is2(b) && !Is3(b) && !Is4(b) && !Continues(b)
  {
  }

  /** Longer encodings start with larger bytes. */
  lemma ByteRanges(x: Byte, y: Byte)
    ensures IsAscii(x) && (Is2(y) || Is3(y) || Is4(y)) ==> x < y
    ensures Is2(x) && (Is3(y) || Is4(y)) ==> x < y
    ensures Is3(x) && Is4(y) ==> x < y
  {
  }

  lemma TailContinues(c: Code)
    ensures Continues(Tail(c)) && Tail(c) != 0 && Continues(Tail6(c)) && Tail6(c) != 0
    ensures Continues(Tail12(c)) && Tail12(c) != 0
  {
  }

  lemma One(c: Code)
    requires Fits1(c)
    ensures IsAscii(Char(c)) && Char(c) as bv32 == c && (c > 0 ==> Char(c) != 0)
  {
  }

  lemma OneBack(x: Byte)
    requires IsAscii(x)
    ensures Fits1(x as bv32) && (x != 0 ==> IsCode(x as bv32)) && Char(x as bv32) == x
  {
  }

  lemma TailBits(x: bv32)
    ensures (0x3F & Tail(x)) as bv32 == x & 0x3F
  {
  }

  lemma Lead2Bits(c: Code)
    requires Fits2(c)
    ensures Is2(Lead2(c)) && Lead2(c) != 0 && (0x1F & Lead2(c)) as bv32 == c >> 6
    ensures !Fits1(c) ==> !Overlong2(Lead2(c))
  {
  }

  lemma Lead3Bits(c: Code)
    requires Fits3(c)
    ensures Is3(Lead3(c)) && Lead3(c) != 0 && (0x0F & Lead3(c)) as bv32 == c >> 12
  {
  }

  lemma Lead4Bits(c: Code)
    requires c < 0x200000
    ensures Is4(Lead4(c)) && Lead4(c) != 0 && (0x07 & Lead4(c)) as bv32 == c >> 18
  {
  }

  lemma Two(c: Code)
    requires !Fits1(c) && Fits2(c)
    ensures Is2(Lead2(c)) && Lead2(c) != 0 && !Overlong2(Lead2(c)) && Join2(Lead2(c), Tail(c)) == c
  {
    hide Lead2, Tail, Is2, Overlong2;
    Lead2Bits(c);
    TailBits(c);
  }

  lemma TwoBack(x: Byte, y: Byte)
    requires Is2(x) && Continues(y) && !Overlong2(x)
    ensures !Fits1(Join2(x, y)) && Fits2(Join2(x, y)) && IsCode(Join2(x, y)) && Lead2(Join2(x, y)) == x
    ensures Tail(Join2(x, y)) == y
  {
  }

  lemma Three(c: Code)
    requires !Fits2(c) && Fits3(c)
    ensures Is3(Lead3(c)) && Lead3(c) != 0 && !Overlong3(Lead3(c), Tail6(c))
    ensures Join3(Lead3(c), Tail6(c), Tail(c)) == c
  {
    hide Lead3, Tail, Is3, Join3;
    Lead3Bits(c);
    TailBits(c >> 6);
    TailBits(c);
    Joined3(c, Lead3(c), Tail6(c), Tail(c));
  }

  lemma Joined3(c: Code, x: Byte, y: Byte, z: Byte)
    requires !Fits2(c) && Fits3(c) && (0x0F & x) as bv32 == c >> 12
    requires (0x3F & y) as bv32 == (c >> 6) & 0x3F && (0x3F & z) as bv32 == c & 0x3F
    ensures Join3(x, y, z) == c && !Overlong3(x, y)
  {
  }

  lemma ThreeBack(x: Byte, y: Byte, z: Byte)
    requires Is3(x) && Continues(y) && Continues(z) && !Overlong3(x, y)
    ensures var c := Join3(x, y, z);
            !Fits1(c) && !Fits2(c) && Fits3(c) && IsCode(c) && Lead3(c) == x && Tail6(c) == y && Tail(c) == z
  {
  }

  lemma Four(c: Code)
    requires !Fits3(c) && c < 0x200000
    ensures Is4(Lead4(c)) && Lead4(c) != 0 && !Overlong4(Lead4(c), Tail12(c))
    ensures Join4(Lead4(c), Tail12(c), Tail6(c), Tail(c)) == c
  {
    hide Lead4, Tail, Is4, Join4;
    Lead4Bits(c);
    TailBits(c >> 12);
    TailBits(c >> 6);
    TailBits(c);
    Joined4(c, Lead4(c), Tail12(c), Tail6(c), Tail(c));
  }

  lemma Joined4(c: Code, x: Byte, y: Byte, z: Byte, w: Byte)
    requires !Fits3(c) && c < 0x200000 && (0x07 & x) as bv32 == c >> 18 && (0x3F & y) as bv32 == (c >> 12) & 0x3F
    requires (0x3F & z) as bv32 == (c >> 6) & 0x3F && (0x3F & w) as bv32 == c & 0x3F
    ensures Join4(x, y, z, w) == c && !Overlong4(x, y)
  {
  }

  lemma FourBack(x: Byte, y: Byte, z: Byte, w: Byte)
    requires Is4(x) && Continues(y) && Continues(z) && Continues(w) && !Overlong4(x, y)
    ensures var c := Join4(x, y, z, w);
            !Fits1(c) && !Fits2(c) && !Fits3(c) && IsCode(c) && Lead4(c) == x && Tail12(c) == y && Tail6(c) == z &&
              Tail(c) == w
  {
  }

  // ---- values as arithmetic ----

  function Low(b: Byte, m: Byte): Code
    requires m != 0
  {
    (b % m) as bv32
  }

  lemma KindRanges(b: Byte)
    ensures IsAscii(b) <==> b < 0x80
    ensures Is2(b) <==> 0xC0 <= b < 0xE0
    ensures Is3(b) <==> 0xE0 <= b < 0xF0
    ensures Is4(b) <==> 0xF0 <= b < 0xF8
  {
  }

  /** The bytes of a code point as digits to base 64, the first one less the bits that mark the length. */
  function Value2(x: Byte, y: Byte): Code {
    Low(x, 0x20) * 0x40 + Low(y, 0x40)
  }

  function Value3(x: Byte, y: Byte, z: Byte): Code {
    (Low(x, 0x10) * 0x40 + Low(y, 0x40)) * 0x40 + Low(z, 0x40)
  }

  function Value4(x: Byte, y: Byte, z: Byte, w: Byte): Code {
    ((Low(x, 8) * 0x40 + Low(y, 0x40)) * 0x40 + Low(z, 0x40)) * 0x40 + Low(w, 0x40)
  }

  lemma JoinedValue2(x: Byte, y: Byte)
    ensures Join2(x, y) == Value2(x, y)
  {
  }

  lemma JoinedValue3(x: Byte, y: Byte, z: Byte)
    ensures Join3(x, y, z) == Value3(x, y, z)
  {
  }

  lemma JoinedValue4(x: Byte, y: Byte, z: Byte, w: Byte)
    ensures Join4(x, y, z, w) == Value4(x, y, z, w)
  {
  }

  // ---- order ----

  lemma TailAbove(x: bv32, y: bv32)
    ensures Tail(x) > Tail(y) ==> x & 0x3F > y & 0x3F
    ensures Tail(x) == Tail(y) ==> x & 0x3F == y & 0x3F
  {
  }

  lemma Tail6Above(c: Code, d: Code)
    ensures Tail6(c) > Tail6(d) ==> (c >> 6) & 0x3F > (d >> 6) & 0x3F
    ensures Tail6(c) == Tail6(d) ==> (c >> 6) & 0x3F == (d >> 6) & 0x3F
  {
  }

  lemma Lead2Above(c: Code, d: Code)
    requires Fits2(c) && Fits2(d)
    ensures Lead2(c) > Lead2(d) ==> c >> 6 > d >> 6
    ensures Lead2(c) == Lead2(d) ==> c >> 6 == d >> 6
  {
  }

  lemma Lead3Above(c: Code, d: Code)
    requires Fits3(c) && Fits3(d)
    ensures Lead3(c) > Lead3(d) ==> (c >> 6) >> 6 > (d >> 6) >> 6
    ensures Lead3(c) == Lead3(d) ==> (c >> 6) >> 6 == (d >> 6) >> 6
  {
  }

  lemma Lead4Above(c: Code, d: Code)
    requires c < 0x200000 && d < 0x200000
    ensures Lead4(c) > Lead4(d) ==> (c >> 12) >> 6 > (d >> 12) >> 6
    ensures Lead4(c) == Lead4(d) ==> (c >> 12) >> 6 == (d >> 12) >> 6
  {
  }

  // The first byte in which two encodings of the same length differ has the order of the code points.

  ghost predicate After2(c: Code, d: Code) {
    Lead2(c) > Lead2(d) || (Lead2(c) == Lead2(d) && Tail(c) > Tail(d))
  }

  ghost predicate Low12After(c: Code, d: Code) {
    Tail6(c) > Tail6(d) || (Tail6(c) == Tail6(d) && Tail(c) > Tail(d))
  }

  ghost predicate After3(c: Code, d: Code) {
    Lead3(c) > Lead3(d) || (Lead3(c) == Lead3(d) && Low12After(c, d))
  }

  ghost predicate After4(c: Code, d: Code) {
    || Lead4(c) > Lead4(d)
    || (Lead4(c) == Lead4(d) && Tail12(c) > Tail12(d))
    || (Lead4(c) == Lead4(d) && Tail12(c) == Tail12(d) && Low12After(c, d))
  }

  lemma Differ2(c: Code, d: Code)
    requires Fits2(c) && Fits2(d) && After2(c, d)
    ensures c > d
  {
    hide Lead2, Tail;
    Lead2Above(c, d);
    TailAbove(c, d);
  }

  lemma Low12Above(c: Code, d: Code)
    requires c >> 12 > d >> 12 || (c >> 12 == d >> 12 && Low12After(c, d))
    ensures c > d
  {
    hide Tail, Tail6;
    Tail6Above(c, d);
    TailAbove(c, d);
  }

  lemma Differ3(c: Code, d: Code)
    requires Fits3(c) && Fits3(d) && After3(c, d)
    ensures c > d
  {
    hide Lead3, Low12After;
    Lead3Above(c, d);
    Low12Above(c, d);
  }

  lemma Differ4(c: Code, d: Code)
    requires c < 0x200000 && d < 0x200000 && After4(c, d)
    ensures c > d
  {
    hide Lead4, Tail, Low12After;
    Lead4Above(c, d);
    TailAbove(c >> 12, d >> 12);
    Low12Above(c, d);
  }

  lemma Differ1(c: Code, d: Code)
    requires Fits1(c) && Fits1(d) && Char(c) > Char(d)
    ensures c > d
  {
  }

  lemma LongerIsLarger(c: Code, d: Code)
    ensures Fits1(c) && !Fits1(d) ==> d > c
    ensures Fits2(c) && !Fits2(d) ==> d > c
    ensures Fits3(c) && !Fits3(d) ==> d > c
    ensures Fits1(c) ==> Fits2(c)
    ensures Fits2(c) ==> Fits3(c)
  {
  }

  // ---- the outcome of comparing two encodings byte by byte ----

  function CmpByte(x: Byte, y: Byte): (r: int)
    ensures -1 <= r <= 1
  {
    if x < y then -1 else if x > y then 1 else 0
  }

  lemma ByteOutcome(x: Byte, y: Byte)
    ensures CmpByte(x, y) > 0 ==> x > y
    ensures CmpByte(x, y) < 0 ==> y > x
    ensures CmpByte(x, y) == 0 ==> x == y
    ensures CmpByte(y, x) == -CmpByte(x, y)
  {
  }

  function Then(first: int, second: int): int {
    if first != 0 then first else second
  }

  function Outcome2(c: Code, d: Code): int {
    Then(CmpByte(Lead2(c), Lead2(d)), CmpByte(Tail(c), Tail(d)))
  }

  function Outcome3(c: Code, d: Code): int {
    Then(CmpByte(Lead3(c), Lead3(d)), Then(CmpByte(Tail6(c), Tail6(d)), CmpByte(Tail(c), Tail(d))))
  }

  function Outcome4(c: Code, d: Code): int {
    Then(CmpByte(Lead4(c), Lead4(d)),
         Then(CmpByte(Tail12(c), Tail12(d)), Then(CmpByte(Tail6(c), Tail6(d)), CmpByte(Tail(c), Tail(d)))))
  }

  lemma Above2(c: Code, d: Code)
    requires Fits2(c) && Fits2(d) && Outcome2(c, d) > 0
    ensures c > d
  {
    hide Lead2, Tail, CmpByte, Fits2;
    ByteOutcome(Lead2(c), Lead2(d));
    ByteOutcome(Tail(c), Tail(d));
    Differ2(c, d);
  }

  lemma Above3(c: Code, d: Code)
    requires Fits3(c) && Fits3(d) && Outcome3(c, d) > 0
    ensures c > d
  {
    hide Lead3, Tail, Tail6, CmpByte, Fits3;
    ByteOutcome(Lead3(c), Lead3(d));
    ByteOutcome(Tail6(c), Tail6(d));
    ByteOutcome(Tail(c), Tail(d));
    Differ3(c, d);
  }

  lemma Above4(c: Code, d: Code)
    requires IsCode(c) && IsCode(d) && Outcome4(c, d) > 0
    ensures c > d
  {
    hide Lead4, Tail, Tail6, Tail12, CmpByte;
    ByteOutcome(Lead4(c), Lead4(d));
    ByteOutcome(Tail12(c), Tail12(d));
    ByteOutcome(Tail6(c), Tail6(d));
    ByteOutcome(Tail(c), Tail(d));
    Differ4(c, d);
  }

  lemma Same2(c: Code, d: Code)
    requires !Fits1(c) && Fits2(c) && !Fits1(d) && Fits2(d) && Outcome2(c, d) == 0
    ensures c == d
  {
    hide Lead2, Tail, Join2, CmpByte, Fits1, Fits2, Is2, Overlong2;
    ByteOutcome(Lead2(c), Lead2(d));
    ByteOutcome(Tail(c), Tail(d));
    Two(c);
    Two(d);
  }

  lemma Same3(c: Code, d: Code)
    requires !Fits2(c) && Fits3(c) && !Fits2(d) && Fits3(d) && Outcome3(c, d) == 0
    ensures c == d
  {
    hide Lead3, Tail, Tail6, Join3, CmpByte, Fits2, Fits3, Is3, Overlong3;
    ByteOutcome(Lead3(c), Lead3(d));
    ByteOutcome(Tail6(c), Tail6(d));
    ByteOutcome(Tail(c), Tail(d));
    Three(c);
    Three(d);
  }

  lemma Same4(c: Code, d: Code)
    requires !Fits3(c) && IsCode(c) && !Fits3(d) && IsCode(d) && Outcome4(c, d) == 0
    ensures c == d
  {
    hide Lead4, Tail, Tail6, Tail12, Join4, CmpByte, Fits3, Is4, Overlong4;
    ByteOutcome(Lead4(c), Lead4(d));
    ByteOutcome(Tail12(c), Tail12(d));
    ByteOutcome(Tail6(c), Tail6(d));
    ByteOutcome(Tail(c), Tail(d));
    Four(c);
    Four(d);
  }

  lemma Same1(c: Code, d: Code)
    requires Fits1(c) && Fits1(d) && Char(c) == Char(d)
    ensures c == d
  {
  }

  /** The order of two code points: -1, 0 or 1. */
  function CmpCode(c: Code, d: Code): int {
    if c == d then 0 else if c > d then 1 else -1
  }

  lemma AboveMeans(c: Code, d: Code)
    requires c > d
    ensures CmpCode(c, d) == 1 && CmpCode(d, c) == -1
  {
  }
}
