// Machine-word types and bit tests shared by the matrix models.

module Bits {

  /** uint16_t: a raw timer value in ticks. */
  type u16 = x: int | 0 <= x < 0x1_0000

  /** uint8_t: a histogram bin count, which wraps at 256. */
  type u8 = x: int | 0 <= x < 0x100

  /** The largest uint16_t, used as the "still charged" sentinel and as the
      starting value of running minima. */
  const U16Max: u16 := 0xFFFF

  /** matrix_row_t is at most 32 bits wide, so a matrix has at most 32 columns. */
  const MaxCols: nat := 32

  /** The mask `1 << c` for a column number of a 32-bit row word. */
  function ColMask(c: bv5): bv32
  {
    1 << c
  }

  /** The column mask of column `c`. */
  function Mask(c: nat): bv32
    requires c < 32
  {
    ColMask(c as bv5)
  }

  /** Bit `c` of a matrix row word is set. */
  predicate Bit(w: bv32, c: nat)
    requires c < 32
  {
    (w & Mask(c)) != 0
  }

  /** The scan loops start their column mask at 1 and shift it left once per
      column; that walks through exactly the masks above. */
  lemma MaskStep(c: nat)
    requires c + 1 < 32
    ensures Mask(0) == 1 && Mask(c + 1) == Mask(c) << 1
  {
  }

  /** Column numbers below 32 survive the trip through `bv5`. */
  lemma ColumnRoundTrip(c: nat)
    requires c < 32
    ensures (c as bv5) as int == c
  {
  }

  /** Setting one column's bit, stated on `bv5` column numbers. */
  lemma ColMaskOr(w: bv32, k: bv5, c: bv5)
    ensures ((w | ColMask(k)) & ColMask(c) != 0) <==> (c == k || (w & ColMask(c)) != 0)
  {
  }

  lemma BitOfOrSame(w: bv32, k: nat)
    requires k < 32
    ensures Bit(w | Mask(k), k)
  {
    var k5 := k as bv5;
    ColMaskOr(w, k5, k5);
  }

  lemma BitOfOrOther(w: bv32, k: nat, c: nat)
    requires k < 32 && c < 32 && k != c
    ensures Bit(w | Mask(k), c) == Bit(w, c)
  {
    var k5, c5 := k as bv5, c as bv5;
    ColumnRoundTrip(k);
    ColumnRoundTrip(c);
    assert k5 != c5;
    ColMaskOr(w, k5, c5);
  }

  /** Setting bit `k` sets bit `k` and leaves every other bit alone. */
  lemma BitOfOr(w: bv32, k: nat, c: nat)
    requires k < 32 && c < 32
    ensures Bit(w | Mask(k), c) <==> (c == k || Bit(w, c))
  {
    if c == k {
      BitOfOrSame(w, k);
    } else {
      BitOfOrOther(w, k, c);
    }
  }

  /** A bit of `b` selected by `m` survives OR-ing `a` into `b`. */
  lemma OrKeepsBits(a: bv32, b: bv32, m: bv32)
    ensures (b & m) != 0 ==> ((a | b) & m) != 0
  {
  }

  /** OR-ing creates no bit that neither side had. */
  lemma OrAddsNoBits(a: bv32, b: bv32, m: bv32)
    ensures (a & m) == 0 && (b & m) == 0 ==> ((a | b) & m) == 0
  {
  }
}
