/** `reverseBits` (fft.h:49-61) and the destination index that
    `bitReverseCopy` computes from it (fft.h:70-73). */
module BitReversal {
  import opened Words

  /** Bit `j` of `x` is set. */
  predicate Bit(x: Word, j: Word)
    requires j < 32
  {
    (x >> j) & 1 == 1
  }

  /** `reverseBits`: swap adjacent bits, then pairs, nibbles, bytes and
      half-words; bit `j` of the argument ends up at bit `31 - j`. */
  function ReverseBits(num: Word): (r: Word)
    ensures forall j :: 0 <= j < 32 ==> Bit(r, 31 - j) == Bit(num, j)
  {
    var n1 := ((num >> 1) & 0x5555_5555) | ((num & 0x5555_5555) << 1);
    var n2 := ((n1 >> 2) & 0x3333_3333) | ((n1 & 0x3333_3333) << 2);
    var n3 := ((n2 >> 4) & 0x0F0F_0F0F) | ((n2 & 0x0F0F_0F0F) << 4);
    var n4 := ((n3 >> 8) & 0x00FF_00FF) | ((n3 & 0x00FF_00FF) << 8);
    (n4 >> 16) | (n4 << 16)
  }

  /** Reversing twice restores the word. */
  lemma ReverseBitsInvolution(x: Word)
    ensures ReverseBits(ReverseBits(x)) == x
  {}

  /** The array position `bitReverseCopy` writes element `x` to when the
      length is `2^wordLength`: `reverseBits(x) >> (32 - wordLength)`, which
      fits in `wordLength` bits and so lies below the length.
      For `wordLength == 0` (length 1) the C expression shifts by the full
      word width, which the C standard leaves undefined; the only index then
      is 0 and it stays at 0. */
  function ReversedIndex(x: Word, wordLength: Word): (r: Word)
    requires wordLength < 32
    ensures FitsIn(r, wordLength)
  {
    if wordLength == 0 then 0
    else
      ShiftedDownFits(ReverseBits(x), 32 - wordLength);
      ReverseBits(x) >> (32 - wordLength)
  }

  lemma ShiftedDownFits(z: Word, s: Word)
    requires 1 <= s <= 32
    ensures (z >> s) & !((0xFFFF_FFFF as Word) >> s) == 0
  {}

  /** For an index of `wordLength` bits, the destination moved back up to the
      top of the word is the full 32-bit reversal: the destination is the
      `wordLength`-bit reversal of the index, bit `j` going to bit
      `wordLength - 1 - j`. */
  lemma ReversedIndexIsReversal(x: Word, wordLength: Word)
    requires 1 <= wordLength < 32
    requires FitsIn(x, wordLength)
    ensures ReversedIndex(x, wordLength) << (32 - wordLength) == ReverseBits(x)
  {}

  /** The same reversal bit by bit: bit `j` of an index of `wordLength` bits
      is bit `wordLength - 1 - j` of its destination. */
  lemma ReversedIndexBits(x: Word, wordLength: Word)
    requires 1 <= wordLength < 32
    requires FitsIn(x, wordLength)
    ensures forall j :: 0 <= j < wordLength ==> Bit(ReversedIndex(x, wordLength), wordLength - 1 - j) == Bit(x, j)
  {
    ReversedIndexIsReversal(x, wordLength);
    forall j | 0 <= j < wordLength
      ensures Bit(ReversedIndex(x, wordLength), wordLength - 1 - j) == Bit(x, j)
    {
      ShiftedBitTransfer(ReversedIndex(x, wordLength), ReverseBits(x), x, wordLength, j);
    }
  }

  /** If `y` shifted up by `32 - k` is a word whose bit `31 - j` is bit `j`
      of `x`, then bit `k - 1 - j` of `y` is bit `j` of `x`. */
  lemma ShiftedBitTransfer(y: Word, r: Word, x: Word, k: Word, j: Word)
    requires 1 <= k < 32 && j < k
    requires y << (32 - k) == r
    requires Bit(r, 31 - j) == Bit(x, j)
    ensures Bit(y, k - 1 - j) == Bit(x, j)
  {
    MirrorBit(y, k, j);
  }

  /** Shifting a word up by `32 - k` moves bit `k - 1 - j` to bit `31 - j`. */
  lemma MirrorBit(y: Word, k: Word, j: Word)
    requires 1 <= k < 32 && j < k
    ensures Bit(y << (32 - k), 31 - j) == Bit(y, k - 1 - j)
  {}

  /** On indices of `wordLength` bits the destination map is its own inverse,
      hence a bijection of `[0, 2^wordLength)`. */
  lemma ReversedIndexInvolution(x: Word, wordLength: Word)
    requires wordLength < 32
    requires FitsIn(x, wordLength)
    ensures ReversedIndex(ReversedIndex(x, wordLength), wordLength) == x
  {}

  /** The order in which an 8-element array is rearranged. */
  lemma ReversedIndexLengthEight()
    ensures ReversedIndex(0, 3) == 0 && ReversedIndex(1, 3) == 4
    ensures ReversedIndex(2, 3) == 2 && ReversedIndex(3, 3) == 6
    ensures ReversedIndex(4, 3) == 1 && ReversedIndex(5, 3) == 5
    ensures ReversedIndex(6, 3) == 3 && ReversedIndex(7, 3) == 7
  {}
}
