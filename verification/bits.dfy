/** The two bitwise expressions of trunk/kernel/display.c, checked on 16-bit
    words. The rest of the model uses their arithmetic forms. */
module Bits {

  /** `c | (color << 8)`: with both operands below 256 the two bytes do not
      overlap, so the OR is an addition and each byte can be read back. */
  lemma CellIsOr(c: bv16, color: bv16)
    requires c < 0x100 && color < 0x100
    ensures c | (color << 8) == color * 0x100 + c
    ensures (c | (color << 8)) & 0xFF == c
    ensures (c | (color << 8)) >> 8 == color
  {
  }

  /** `(x + 8) & ~(8 - 1)`: clearing the three low bits subtracts the
      remainder modulo 8. */
  lemma TabMaskIsRoundDown(x: bv16)
    requires x < 0x100
    ensures (x + 8) & 0xFFF8 == (x + 8) - (x + 8) % 8
    ensures ((x + 8) & 0xFFF8) % 8 == 0
  {
  }
}
