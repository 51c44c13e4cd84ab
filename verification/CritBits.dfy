/** PATRICA.h, the bit level: a byte position and a mask `otherbits`, in which only the critical bit
    is clear, decide to which side a string goes. */
module CritBits {
  import opened Strings
  import opened Order

  /** The direction the code computes in int arithmetic: 1 or 0. */
  function Direction(otherbits: Byte, c: Byte): bool {
    (1 + ((otherbits | c) as bv16)) >> 8 == 1
  }

  /** The byte at a position; behind the end of the string it counts as 0. */
  function ByteAt(u: Str, i: nat): Byte {
    if i < |u| then u[i] else 0
  }

  /** The side of string `u` at a critical bit. */
  function Side(u: Str, byte: nat, otherbits: Byte): bool {
    Direction(otherbits, ByteAt(u, byte))
  }

  predicate IsMask(m: Byte) {
    m == 254 || m == 253 || m == 251 || m == 247 || m == 239 || m == 223 || m == 191 || m == 127
  }

  /** The critical bit and all bits below it. */
  function LowBits(m: Byte): Byte
    requires IsMask(m)
  {
    (255 ^ m) | ((255 ^ m) - 1)
  }

  /** The mask of the highest bit in which two bytes differ, the way insert computes it. */
  function MaskOf(d: Byte): Byte {
    var d1 := d | (d >> 1);
    var d2 := d1 | (d1 >> 2);
    var d3 := d2 | (d2 >> 4);
    (d3 & !(d3 >> 1)) ^ 255
  }

  /** The two bytes agree in all bits above the critical one. */
  predicate AgreeAbove(x: Byte, y: Byte, m: Byte)
    requires IsMask(m)
  {
    x ^ y <= LowBits(m)
  }

  lemma DifferenceMask(x: Byte, y: Byte, d: Byte)
    requires d == x ^ y && d != 0
    ensures IsMask(MaskOf(d)) && AgreeAbove(y, x, MaskOf(d)) && Direction(MaskOf(d), x) == !Direction(MaskOf(d), y)
  {
  }

  lemma SidesAreOrdered(x: Byte, y: Byte, m: Byte)
    requires IsMask(m) && AgreeAbove(x, y, m) && !Direction(m, x) && Direction(m, y)
    ensures x < y
  {
  }

  /** The number of the critical bit within its byte, from the top. */
  function Rank(m: Byte): (r: nat)
    ensures r < 8
  {
    if m == 127 then 0 else if m == 191 then 1 else if m == 223 then 2 else if m == 239 then 3
    else if m == 247 then 4 else if m == 251 then 5 else if m == 253 then 6 else 7
  }

  // ---- strings ----

  /** Two strings agree in everything before the critical bit. */
  ghost predicate AgreeBefore(u: Str, v: Str, byte: nat, m: Byte)
    requires IsMask(m)
  {
    && (forall j :: 0 <= j < byte ==> ByteAt(u, j) == ByteAt(v, j))
    && AgreeAbove(ByteAt(u, byte), ByteAt(v, byte), m)
  }

  predicate Before(byte: nat, m: Byte, byte': nat, m': Byte) {
    byte < byte' || (byte == byte' && m < m')
  }

  /** Agreement before a later critical bit decides the sides at an earlier one. */
  lemma EarlierSide(u: Str, v: Str, byte: nat, m: Byte, byte': nat, m': Byte)
    requires IsMask(m) && IsMask(m') && Before(byte, m, byte', m') && AgreeBefore(u, v, byte', m')
    ensures AgreeBefore(u, v, byte, m) && Side(u, byte, m) == Side(v, byte, m)
  {
  }

  lemma AgreeBeforeTransitive(u: Str, v: Str, w: Str, byte: nat, m: Byte)
    requires IsMask(m) && AgreeBefore(u, v, byte, m) && AgreeBefore(v, w, byte, m)
    ensures AgreeBefore(u, w, byte, m)
    ensures AgreeBefore(v, u, byte, m)
  {
  }

  /** Strings on different sides are in string_cmp order. */
  lemma SidesOrderStrings(u: Str, v: Str, byte: nat, m: Byte)
    requires NulFree(u) && NulFree(v)
    requires IsMask(m) && AgreeBefore(u, v, byte, m) && !Side(u, byte, m) && Side(v, byte, m)
    ensures Less(u, v)
  {
    SidesAreOrdered(ByteAt(u, byte), ByteAt(v, byte), m);
    hide AgreeAbove, Direction;
    FirstDifferenceDecides(u, v, byte);
  }

  lemma {:induction false} FirstDifferenceDecides(u: Str, v: Str, byte: nat)
    requires NulFree(u) && NulFree(v)
    requires (forall j :: 0 <= j < byte ==> ByteAt(u, j) == ByteAt(v, j)) && ByteAt(u, byte) < ByteAt(v, byte)
    ensures Less(u, v)
    decreases byte
  {
    assert |v| > byte;
    if byte > 0 && u != [] {
      assert ByteAt(u, 0) == ByteAt(v, 0);
      forall j | 0 <= j <= byte - 1
        ensures ByteAt(u[1..], j) == ByteAt(u, j + 1) && ByteAt(v[1..], j) == ByteAt(v, j + 1)
      {
      }
      FirstDifferenceDecides(u[1..], v[1..], byte - 1);
    }
  }
}
