/** `fastlog2` (fft.h:44-47): the base-2 logarithm of a power of two by de
    Bruijn multiplication and a 32-entry table (fft.h:13-17). */
module Log2 {
  import opened Words

  /** `MultiplyDeBruijnBitPosition2` (fft.h:13-17). */
  const DeBruijnBitPosition: seq<Word> :=
    [ 0, 1, 28, 2, 29, 14, 24, 3, 30, 22, 20, 15, 25, 17, 4, 8,
      31, 27, 13, 23, 21, 19, 16, 7, 26, 12, 18, 6, 11, 5, 10, 9 ]

  /** The de Bruijn multiplier `0x077CB531U`. */
  const DE_BRUIJN: Word := 0x077C_B531

  /** The table slot: the top five bits of the wrapped 32-bit product. */
  function Slot(n: Word): (s: Word)
    ensures s < 32
  {
    (n * DE_BRUIJN) >> 27
  }

  /** Every table entry is a bit position. */
  lemma TableEntriesAreBitPositions(s: Word)
    requires s < 32
    ensures DeBruijnBitPosition[s] < 32
  {
    assert s == 0 || s == 1 || s == 2 || s == 3 || s == 4 || s == 5 || s == 6 || s == 7
        || s == 8 || s == 9 || s == 10 || s == 11 || s == 12 || s == 13 || s == 14 || s == 15
        || s == 16 || s == 17 || s == 18 || s == 19 || s == 20 || s == 21 || s == 22 || s == 23
        || s == 24 || s == 25 || s == 26 || s == 27 || s == 28 || s == 29 || s == 30 || s == 31;
  }

  /** `fastlog2`: defined for every word, meaningful for powers of two. */
  function FastLog2(n: Word): (r: Word)
    ensures r < 32
  {
    TableEntriesAreBitPositions(Slot(n));
    DeBruijnBitPosition[Slot(n)]
  }

  /** The table inverts `1 << k` for each of the 32 bit positions. */
  lemma FastLog2OfPow2(k: Word)
    requires k < 32
    ensures FastLog2(Pow2W(k)) == k
  {
    if k < 8 {
      assert k == 0 || k == 1 || k == 2 || k == 3 || k == 4 || k == 5 || k == 6 || k == 7;
      FastLog2OfPow2Byte0(k);
    } else if k < 16 {
      assert k == 8 || k == 9 || k == 10 || k == 11 || k == 12 || k == 13 || k == 14 || k == 15;
      FastLog2OfPow2Byte1(k);
    } else if k < 24 {
      assert k == 16 || k == 17 || k == 18 || k == 19 || k == 20 || k == 21 || k == 22 || k == 23;
      FastLog2OfPow2Byte2(k);
    } else {
      assert k == 24 || k == 25 || k == 26 || k == 27 || k == 28 || k == 29 || k == 30 || k == 31;
      FastLog2OfPow2Byte3(k);
    }
  }

  // FastLog2OfPow2Byte0..3 and SingleBitByte0..3 split the 32 cases of
  // `fastlog2` on a single-bit word into four groups of eight, so that each
  // group is a small enumeration the solver checks on its own.

  lemma FastLog2OfPow2Byte0(k: Word)
    requires k == 0 || k == 1 || k == 2 || k == 3 || k == 4 || k == 5 || k == 6 || k == 7
    ensures FastLog2(Pow2W(k)) == k
  {}

  lemma FastLog2OfPow2Byte1(k: Word)
    requires k == 8 || k == 9 || k == 10 || k == 11 || k == 12 || k == 13 || k == 14 || k == 15
    ensures FastLog2(Pow2W(k)) == k
  {}

  lemma FastLog2OfPow2Byte2(k: Word)
    requires k == 16 || k == 17 || k == 18 || k == 19 || k == 20 || k == 21 || k == 22 || k == 23
    ensures FastLog2(Pow2W(k)) == k
  {}

  lemma FastLog2OfPow2Byte3(k: Word)
    requires k == 24 || k == 25 || k == 26 || k == 27 || k == 28 || k == 29 || k == 30 || k == 31
    ensures FastLog2(Pow2W(k)) == k
  {}

  /** On zero the multiplication yields slot 0, whose entry is 0. */
  lemma FastLog2OfZero()
    ensures FastLog2(0) == 0
  {}

  /** A non-zero word with no two set bits is one of the 32 powers of two. */
  lemma SingleBitCases(n: Word)
    requires n != 0 && n & (n - 1) == 0
    ensures n == 1 || n == 2 || n == 4 || n == 8 || n == 0x10 || n == 0x20 || n == 0x40 || n == 0x80
      || n == 0x100 || n == 0x200 || n == 0x400 || n == 0x800 || n == 0x1000 || n == 0x2000
      || n == 0x4000 || n == 0x8000 || n == 0x1_0000 || n == 0x2_0000 || n == 0x4_0000
      || n == 0x8_0000 || n == 0x10_0000 || n == 0x20_0000 || n == 0x40_0000 || n == 0x80_0000
      || n == 0x100_0000 || n == 0x200_0000 || n == 0x400_0000 || n == 0x800_0000
      || n == 0x1000_0000 || n == 0x2000_0000 || n == 0x4000_0000 || n == 0x8000_0000
  {}

  /** For a single-bit word, `fastlog2` names the bit: `1 << fastlog2(n) == n`. */
  lemma FastLog2OfSingleBit(n: Word)
    requires n != 0 && n & (n - 1) == 0
    ensures n == Pow2W(FastLog2(n))
  {
    SingleBitCases(n);
    if n == 1 || n == 2 || n == 4 || n == 8 || n == 0x10 || n == 0x20 || n == 0x40 || n == 0x80 {
      SingleBitByte0(n);
    } else if n == 0x100 || n == 0x200 || n == 0x400 || n == 0x800 || n == 0x1000 || n == 0x2000
      || n == 0x4000 || n == 0x8000 {
      SingleBitByte1(n);
    } else if n == 0x1_0000 || n == 0x2_0000 || n == 0x4_0000 || n == 0x8_0000 || n == 0x10_0000
      || n == 0x20_0000 || n == 0x40_0000 || n == 0x80_0000 {
      SingleBitByte2(n);
    } else {
      SingleBitByte3(n);
    }
  }

  // Groups of eight, as for FastLog2OfPow2Byte0..3 above.

  lemma SingleBitByte0(n: Word)
    requires n == 1 || n == 2 || n == 4 || n == 8 || n == 0x10 || n == 0x20 || n == 0x40 || n == 0x80
    ensures n == Pow2W(FastLog2(n))
  {}

  lemma SingleBitByte1(n: Word)
    requires n == 0x100 || n == 0x200 || n == 0x400 || n == 0x800 || n == 0x1000 || n == 0x2000
      || n == 0x4000 || n == 0x8000
    ensures n == Pow2W(FastLog2(n))
  {}

  lemma SingleBitByte2(n: Word)
    requires n == 0x1_0000 || n == 0x2_0000 || n == 0x4_0000 || n == 0x8_0000 || n == 0x10_0000
      || n == 0x20_0000 || n == 0x40_0000 || n == 0x80_0000
    ensures n == Pow2W(FastLog2(n))
  {}

  lemma SingleBitByte3(n: Word)
    requires n == 0x100_0000 || n == 0x200_0000 || n == 0x400_0000 || n == 0x800_0000
      || n == 0x1000_0000 || n == 0x2000_0000 || n == 0x4000_0000 || n == 0x8000_0000
    ensures n == Pow2W(FastLog2(n))
  {}
}
