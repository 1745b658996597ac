/** Two places where fft.h relies on behaviour that section 6.5.7 of the C11
    standard leaves undefined. Each comes with the computation as written and
    the corrected one the rest of the model uses. */
module Findings {
  import opened Words
  import opened Log2
  import opened PowerOfTwo
  import opened BitReversal
  import opened BitReverseCopy
  import opened Butterfly

  /** Width of `uint_t` in bits (`INTSIZE`, fft.h:9). */
  const INTSIZE: Word := 32

  /** Largest value of a 32-bit `int`. */
  const INT_MAX: nat := 0x7FFF_FFFF

  /** A shift of a 32-bit operand is defined only for amounts below its width. */
  predicate ShiftDefined(amount: Word)
  {
    amount < INTSIZE
  }

  /** `1 << i` on the `int` literal `1` is defined only when `2^i` is an `int`. */
  predicate IntShiftDefined(i: nat)
  {
    Pow2(i) <= INT_MAX
  }

  /** A non-zero valid length is `1 << fastlog2(length)`. */
  lemma ValidLengthIsWordPow2(length: Word)
    requires ValidLength(length) && length != 0
    ensures length == Pow2W(FastLog2(length))
  {
    SingleBitTest(length);
    FastLog2OfSingleBit(length);
  }

  /** As written, fft.h:73 shifts by `INTSIZE - wordlength`: among the
      lengths for which the loop runs, the amount is the full word width,
      and so undefined, exactly for length 1. */
  lemma CopyShiftUndefinedAtLengthOne(length: Word)
    requires ValidLength(length) && length != 0
    ensures !ShiftDefined(INTSIZE - FastLog2(length)) <==> length == 1
  {
    ValidLengthIsWordPow2(length);
    if length == 1 {
      FastLog2OfPow2(0);
    }
  }

  /** Length 1 is accepted by `checkPowerTwo` and reaches the undefined shift. */
  lemma LengthOneIsAccepted()
    ensures ValidLength(1) && FastLog2(1) == 0
    ensures !ShiftDefined(INTSIZE - FastLog2(1))
  {
    assert Pow2W(0) == 1;
    FastLog2OfPow2(0);
  }

  /** Corrected: `ReversedIndex` treats `wordLength == 0` on its own, so at
      length 1 the single element is copied to position 0 and everything
      else is left alone. */
  lemma LengthOneCopiesInPlace<T>(input: seq<T>, output: seq<T>)
    requires 1 <= |input| && 1 <= |output|
    ensures ValidLength(1)
    ensures ToNat(1) == 1
    ensures BitReversed(input, output, 1) == [input[0]] + output[1..]
  {
    LengthOneIsAccepted();
    SmallToNat(1);
    ValZero(32);
    assert Destination(0, 0) == 0;
  }

  /** With the correction, the transform of a single sample is the sample:
      no stage runs and the copy leaves it in place. */
  lemma LengthOneTransform<T>(input: seq<T>, output: seq<T>, bf: Combine<T>)
    requires 1 <= |input| && 1 <= |output|
    ensures ValidLength(1) && ToNat(1) == 1 && ToNat(FastLog2(1)) == 0
    ensures RunStages(BitReversed(input, output, 1), 1, ToNat(FastLog2(1)), bf) == [input[0]] + output[1..]
  {
    LengthOneCopiesInPlace(input, output);
    ValZero(32);
  }

  /** As written, fft.h:86 computes `m = 1 << i` on the `int` literal `1`.
      Length `2^31` passes `checkPowerTwo` and runs stage 31, where `2^31` is no
      `int`. */
  lemma StageShiftOverflowsInt()
    ensures ValidLength(0x8000_0000)
    ensures ToNat(FastLog2(0x8000_0000)) == 31
    ensures !IntShiftDefined(31)
  {
    assert Pow2W(31) == 0x8000_0000;
    FastLog2OfPow2(31);
    SmallToNat(31);
    Pow2Bits();
  }

  /** Corrected: the group size is the unsigned `2^i`. For every stage of a
      valid length it is at most the length, so it fits a `uint_t`. */
  lemma StageSizeFitsWord(length: Word, i: nat)
    requires ValidLength(length)
    requires 1 <= i <= ToNat(FastLog2(length))
    ensures Pow2(i) <= ToNat(length) < WORD_RANGE
  {
    if length == 0 {
      FastLog2OfZero();
      ValZero(32);
    } else {
      ValidLengthIsPow2(length);
      ToNatBound(length);
      Pow2Monotone(i, ToNat(FastLog2(length)));
    }
  }
}
