/** RadixTree.h: a string read as base-4 digits, four to a byte, high digits first; and the branch
    mask, one bit per digit. */
module RadixDigits {
  import opened Strings

  /** `((0xC0 >> 2 * j) & b) >> 2 * (3 - j)`: the j-th digit of a byte. */
  function DigitOfByte(b: Byte, j: nat): Byte
    requires j < 4
  {
    if j == 0 then (0xC0 & b) >> 6
    else if j == 1 then (0x30 & b) >> 4
    else if j == 2 then (0x0C & b) >> 2
    else 0x03 & b
  }

  function Direction(d: Byte): (r: nat)
    ensures r < 4
  {
    if d == 0 then 0 else if d == 1 then 1 else if d == 2 then 2 else 3
  }

  /** Digit number `pos` of a string. */
  function Digit(u: Str, pos: nat): (r: nat)
    requires pos < 4 * |u|
    ensures r < 4
  {
    Direction(DigitOfByte(u[pos / 4], pos % 4))
  }

  /** `1 << direction`. */
  function Mask(d: nat): Byte
    requires d < 4
  {
    if d == 0 then 1 else if d == 1 then 2 else if d == 2 then 4 else 8
  }

  /** `(branch >> direction) & 1`. */
  predicate Bit(branch: Byte, d: nat)
    requires d < 4
  {
    branch & Mask(d) != 0
  }

  /** `branch += 1 << direction`, done only when the bit is clear. */
  function WithBit(branch: Byte, d: nat): Byte
    requires d < 4
  {
    if Bit(branch, d) then branch else branch + Mask(d)
  }

  lemma AlreadySet(branch: Byte, d: nat)
    requires d < 4
    ensures WithBit(branch, d) == if Bit(branch, d) then branch else branch + Mask(d)
  {
  }

  lemma NoBits(branch: Byte, k: nat)
    requires k < 4 && branch == 0
    ensures !Bit(branch, k)
  {
  }

  /** The two strings have the same first `n` digits. */
  ghost predicate Agree(s: Str, u: Str, n: nat) {
    && n <= 4 * |s| && n <= 4 * |u|
    && forall i: nat :: i < n ==> Digit(s, i) == Digit(u, i)
  }

  lemma SameDigitsSameByte(x: Byte, y: Byte)
    requires Direction(DigitOfByte(x, 0)) == Direction(DigitOfByte(y, 0))
    requires Direction(DigitOfByte(x, 1)) == Direction(DigitOfByte(y, 1))
    requires Direction(DigitOfByte(x, 2)) == Direction(DigitOfByte(y, 2))
    requires Direction(DigitOfByte(x, 3)) == Direction(DigitOfByte(y, 3))
    ensures x == y
  {
  }

  /** Agreement in all digits of `m` bytes is agreement in the bytes. */
  lemma AgreeIsPrefix(s: Str, u: Str, m: nat)
    requires m <= |s| && m <= |u|
    ensures Agree(s, u, 4 * m) <==> s[..m] == u[..m]
  {
    hide Direction, DigitOfByte;
    if Agree(s, u, 4 * m) {
      forall i: nat | i < m
        ensures s[i] == u[i]
      {
        forall j: nat | j < 4
          ensures Direction(DigitOfByte(s[i], j)) == Direction(DigitOfByte(u[i], j))
        {
          DigitIsDirection(s, i, j);
          DigitIsDirection(u, i, j);
          assert Digit(s, 4 * i + j) == Digit(u, 4 * i + j);
        }
        SameDigitsSameByte(s[i], u[i]);
      }
    }
    if s[..m] == u[..m] {
      forall i: nat | i < 4 * m
        ensures Digit(s, i) == Digit(u, i)
      {
        assert s[..m][i / 4] == s[i / 4] && u[..m][i / 4] == u[i / 4];
      }
    }
  }

  lemma DigitIsDirection(s: Str, i: nat, j: nat)
    requires i < |s| && j < 4
    ensures 4 * i + j < 4 * |s| && Digit(s, 4 * i + j) == Direction(DigitOfByte(s[i], j))
  {
  }
}
