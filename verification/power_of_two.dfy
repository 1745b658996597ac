/** `checkPowerTwo` (fft.h:35-41). */
module PowerOfTwo {
  import opened Words
  import Log2

  /** What `checkPowerTwo` can return: the verdict of the bit test (1 or 0),
      or `E_INVALID_INPUT` when its argument exceeds `UINT_MAX`. */
  datatype Check = Verdict(isPowerOfTwo: bool) | OutOfRange

  /** `UINT_MAX` for a 32-bit `unsigned int`. */
  const UINT_MAX: Word := 0xFFFF_FFFF

  /** `checkPowerTwo`: the range guard can never fire, and the bit test
      `(n & (n - 1)) == 0` accepts exactly zero and the powers of two. */
  function CheckPowerTwo(n: Word): (r: Check)
    ensures r.Verdict?
    ensures r.isPowerOfTwo <==> n == 0 || IsPowerOfTwo(n)
  {
    if n > UINT_MAX then
      OutOfRange
    else
      SingleBitTest(n);
      Verdict(n & (n - 1) == 0)
  }

  /** The bit trick is true exactly for zero and for words with one set bit. */
  lemma SingleBitTest(n: Word)
    ensures n & (n - 1) == 0 <==> n == 0 || IsPowerOfTwo(n)
  {
    if n != 0 && n & (n - 1) == 0 {
      Log2.FastLog2OfSingleBit(n);
    }
    forall k | k < 32 && n == Pow2W(k)
      ensures n & (n - 1) == 0
    {
    }
  }

  /** The verdicts on a few small lengths: 0 is accepted along with the
      powers of two. */
  lemma CheckPowerTwoExamples()
    ensures CheckPowerTwo(0) == Verdict(true) && CheckPowerTwo(1) == Verdict(true)
    ensures CheckPowerTwo(2) == Verdict(true) && CheckPowerTwo(3) == Verdict(false)
    ensures CheckPowerTwo(4) == Verdict(true) && CheckPowerTwo(5) == Verdict(false)
    ensures CheckPowerTwo(8) == Verdict(true) && CheckPowerTwo(1024) == Verdict(true)
  {}
}
