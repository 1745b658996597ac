/** Machine words of the C source (`uint_t`, fft.h:11) and the unsigned value
    they denote.

    The verifier reasons well about bit operations on `bv32` but poorly about
    the built-in conversion `as int`, so the value of a word is defined here
    by structural recursion over its bits (`ToNat`) together with the lemmas
    that the rest of the model needs: injectivity, the successor step, the
    value of `1 << k`, and the link between "high bits are zero" and
    "value is below 2^k". */
module Words {

  /** `uint_t` (fft.h:11) on a platform whose `unsigned int` has 32 bits. */
  type Word = bv32

  /** A bit count between 0 and 32 (small enough to convert to `int` cheaply). */
  type Width = bv8

  /** Number of distinct `uint_t` values. */
  const WORD_RANGE: nat := 0x1_0000_0000

  function Pow2(e: nat): (r: nat)
    ensures r >= 1
  {
    if e == 0 then 1 else 2 * Pow2(e - 1)
  }

  lemma {:induction false} Pow2Add(a: nat, b: nat)
    ensures Pow2(a + b) == Pow2(a) * Pow2(b)
    decreases a
  {
    if a != 0 {
      calc {
        Pow2(a + b);
        2 * Pow2(a - 1 + b);
        { Pow2Add(a - 1, b); }
        2 * (Pow2(a - 1) * Pow2(b));
        (2 * Pow2(a - 1)) * Pow2(b);
      }
    }
  }

  lemma {:induction false} Pow2Monotone(a: nat, b: nat)
    requires a <= b
    ensures Pow2(a) <= Pow2(b)
    decreases b
  {
    if a < b {
      Pow2Monotone(a, b - 1);
    }
  }

  lemma Pow2Bits()
    ensures Pow2(32) == WORD_RANGE
  {
    assert Pow2(2) == 4;
    Pow2Add(2, 2);
    Pow2Add(4, 4);
    Pow2Add(8, 8);
    Pow2Add(16, 16);
  }

  /** The word `2^k`, computed the way the source writes it: `1 << k`. */
  function Pow2W(k: Word): Word
    requires k < 32
  {
    1 << k
  }

  /** `n` is one of the 32 powers of two a word can hold. */
  ghost predicate IsPowerOfTwo(n: Word)
  {
    exists k :: k < 32 && n == Pow2W(k)
  }

  function LowBit(y: Word): nat
  {
    if y & 1 == 1 then 1 else 0
  }

  /** The unsigned value of the low `w` bits of `y`. */
  function Val(y: Word, w: Width): nat
    requires w <= 32
    decreases w
  {
    if w == 0 then 0 else LowBit(y) + 2 * Val(y >> 1, w - 1)
  }

  /** The unsigned value of a word: what C uses when a `uint_t` indexes an array. */
  function ToNat(y: Word): nat
  {
    Val(y, 32)
  }

  /** The word a `uint_t` counter holds after `n` increments from 0. */
  function FromNat(n: nat): Word
  {
    if n == 0 then 0 else FromNat(n - 1) + 1
  }

  /** The word whose low `w` bits are set and whose other bits are clear. */
  function LowMask(w: Width): (m: Word)
    requires w <= 32
  {
    if w == 0 then 0 else (LowMask(w - 1) << 1) | 1
  }

  /** The mask is all ones shifted down by the number of bits it leaves clear. */
  lemma {:induction false} LowMaskShift(w: Width)
    requires w <= 32
    ensures LowMask(w) == 0xFFFF_FFFF >> (32 - w)
    decreases w
  {
    if w != 0 {
      LowMaskShift(w - 1);
      OnesShiftStep(w);
    }
  }

  lemma OnesShiftStep(w: Width)
    requires 1 <= w <= 32
    ensures (((0xFFFF_FFFF as Word) >> (32 - (w - 1))) << 1) | 1 == (0xFFFF_FFFF as Word) >> (32 - w)
  {}

  /** The low `w` bits of `a` and `b` agree. */
  predicate AgreeLow(a: Word, b: Word, w: Width)
    requires w <= 32
  {
    (a ^ b) & LowMask(w) == 0
  }

  /** The low `w` bits of `y` are all ones. */
  predicate OnesLow(y: Word, w: Width)
    requires w <= 32
  {
    y & LowMask(w) == LowMask(w)
  }

  /** Bits `k .. w-1` of `y` are all zero. */
  predicate ZeroBetween(y: Word, k: Width, w: Width)
    requires k <= w <= 32
  {
    y & (LowMask(w) & !LowMask(k)) == 0
  }

  /** The full-width mask is the all-ones word. */
  lemma FullMask()
    ensures LowMask(32) == 0xFFFF_FFFF
  {
    LowMaskShift(32);
  }

  /** Below the full width a mask leaves the top bit clear. */
  lemma MaskTopClear(w: Width)
    requires w < 32
    ensures LowMask(w) & 0x8000_0000 == 0
  {
    LowMaskShift(w);
    ShiftedOnesTopClear(w);
  }

  lemma ShiftedOnesTopClear(w: Width)
    requires w < 32
    ensures ((0xFFFF_FFFF as Word) >> (32 - w)) & 0x8000_0000 == 0
  {}

  lemma {:induction false} ValBound(y: Word, w: Width)
    requires w <= 32
    ensures Val(y, w) < Pow2(w as nat)
    decreases w
  {
    if w != 0 {
      ValBound(y >> 1, w - 1);
    }
  }

  lemma {:induction false} ValZero(w: Width)
    requires w <= 32
    ensures Val(0, w) == 0
    decreases w
  {
    if w != 0 {
      ValZero(w - 1);
    }
  }

  lemma AgreeStepDown(a: Word, b: Word, w: Width)
    requires 1 <= w <= 32
    requires AgreeLow(a, b, w)
    ensures a & 1 == b & 1 && AgreeLow(a >> 1, b >> 1, w - 1)
  {}

  lemma AgreeStepUp(a: Word, b: Word, w: Width)
    requires 1 <= w <= 32
    requires a & 1 == b & 1 && AgreeLow(a >> 1, b >> 1, w - 1)
    ensures AgreeLow(a, b, w)
  {}

  /** Two words have the same low-`w`-bit value exactly when their low `w` bits agree. */
  lemma {:induction false} ValInjective(a: Word, b: Word, w: Width)
    requires w <= 32
    ensures Val(a, w) == Val(b, w) <==> AgreeLow(a, b, w)
    decreases w
  {
    if w != 0 {
      ValInjective(a >> 1, b >> 1, w - 1);
      if AgreeLow(a, b, w) {
        AgreeStepDown(a, b, w);
      }
      if a & 1 == b & 1 && AgreeLow(a >> 1, b >> 1, w - 1) {
        AgreeStepUp(a, b, w);
      }
    }
  }

  lemma OnesStepDown(y: Word, w: Width)
    requires 1 <= w <= 32
    requires OnesLow(y, w)
    ensures y & 1 == 1 && OnesLow(y >> 1, w - 1)
  {
    MaskTopClear(w - 1);
  }

  lemma OnesStepUp(y: Word, w: Width)
    requires 1 <= w <= 32
    requires y & 1 == 1 && OnesLow(y >> 1, w - 1)
    ensures OnesLow(y, w)
  {}

  lemma SuccStep(y: Word, w: Width)
    requires 1 <= w <= 32
    requires !OnesLow(y, w)
    ensures y & 1 == 0 ==> (y + 1) >> 1 == y >> 1 && (y + 1) & 1 == 1
    ensures y & 1 == 1 ==> (y + 1) >> 1 == (y >> 1) + 1 && (y + 1) & 1 == 0 && !OnesLow(y >> 1, w - 1)
  {
    if y & 1 == 1 {
      if OnesLow(y >> 1, w - 1) {
        OnesStepUp(y, w);
      }
      IncOdd(y);
    } else {
      IncEven(y);
    }
  }

  lemma IncEven(y: Word)
    requires y & 1 == 0
    ensures (y + 1) >> 1 == y >> 1 && (y + 1) & 1 == 1
  {}

  lemma IncOdd(y: Word)
    requires y & 1 == 1 && y != 0xFFFF_FFFF
    ensures (y + 1) >> 1 == (y >> 1) + 1 && (y + 1) & 1 == 0
  {}

  lemma {:induction false} ValSucc(y: Word, w: Width)
    requires w <= 32
    requires !OnesLow(y, w)
    ensures Val(y + 1, w) == Val(y, w) + 1
    decreases w
  {
    SuccStep(y, w);
    if y & 1 == 1 {
      ValSucc(y >> 1, w - 1);
    }
  }

  lemma {:induction false} ValOnes(y: Word, w: Width)
    requires w <= 32
    requires OnesLow(y, w)
    ensures Val(y, w) + 1 == Pow2(w as nat)
    decreases w
  {
    if w != 0 {
      OnesStepDown(y, w);
      ValOnes(y >> 1, w - 1);
    }
  }

  lemma ZeroBetweenStep(y: Word, k: Width, w: Width)
    requires 1 <= k <= w <= 32
    ensures ZeroBetween(y, k, w) <==> ZeroBetween(y >> 1, k - 1, w - 1)
  {}

  lemma ZeroBetweenBase(y: Word, w: Width)
    requires w <= 32
    ensures ZeroBetween(y, 0, w) <==> AgreeLow(y, 0, w)
  {}

  /** The low-`w`-bit value of `y` is below `2^k` exactly when bits `k .. w-1` are zero. */
  lemma {:induction false} ValBelow(y: Word, k: Width, w: Width)
    requires k <= w <= 32
    ensures Val(y, w) < Pow2(k as nat) <==> ZeroBetween(y, k, w)
    decreases k
  {
    if k == 0 {
      ValInjective(y, 0, w);
      ValZero(w);
      ZeroBetweenBase(y, w);
    } else {
      ValBelow(y >> 1, k - 1, w - 1);
      ZeroBetweenStep(y, k, w);
    }
  }

  /** `ToNat` is injective. */
  lemma ToNatInjective(a: Word, b: Word)
    ensures ToNat(a) == ToNat(b) <==> a == b
  {
    ValInjective(a, b, 32);
    if AgreeLow(a, b, 32) {
      AgreeFull(a, b);
    }
  }

  lemma AgreeFull(a: Word, b: Word)
    requires AgreeLow(a, b, 32)
    ensures a == b
  {
    FullMask();
  }

  /** Every word denotes a value below 2^32. */
  lemma ToNatBound(y: Word)
    ensures ToNat(y) < WORD_RANGE
  {
    ValBound(y, 32);
    Pow2Bits();
  }

  /** The all-ones word denotes `2^32 - 1`. */
  lemma ToNatAllOnes()
    ensures ToNat(0xFFFF_FFFF) + 1 == WORD_RANGE
  {
    ValOnes(0xFFFF_FFFF, 32);
    Pow2Bits();
  }

  /** `y` fits in `k` bits: every bit from position `k` up is clear. */
  predicate FitsIn(y: Word, k: Word)
    requires k <= 32
  {
    y & !((0xFFFF_FFFF as Word) >> (32 - k)) == 0
  }

  /** A word's value is below `2^k` exactly when it fits in `k` bits. */
  lemma ToNatBelow(y: Word, k: Word)
    requires k <= 32
    ensures ToNat(y) < Pow2(ToNat(k)) <==> FitsIn(y, k)
  {
    SmallToNat(k);
    ValBelow(y, k as Width, 32);
    FullMask();
    LowMaskShift(k as Width);
    NarrowShiftAmount(k);
  }

  lemma NarrowShiftAmount(k: Word)
    requires k <= 32
    ensures (0xFFFF_FFFF as Word) >> (32 - k as Width) == (0xFFFF_FFFF as Word) >> (32 - k)
  {}

  lemma OnesFull(y: Word)
    requires OnesLow(y, 32)
    ensures y == 0xFFFF_FFFF
  {
    FullMask();
  }

  /** Incrementing a word that is not all ones adds one to its value. */
  lemma ToNatSucc(y: Word)
    requires y != 0xFFFF_FFFF
    ensures ToNat(y + 1) == ToNat(y) + 1
  {
    if OnesLow(y, 32) {
      OnesFull(y);
    }
    ValSucc(y, 32);
  }

  /** Counting `n < 2^32` steps from zero yields a word of value `n`. */
  lemma {:induction false} ToNatFromNat(n: nat)
    requires n < WORD_RANGE
    ensures ToNat(FromNat(n)) == n
  {
    if n == 0 {
      ValZero(32);
    } else {
      var y := FromNat(n - 1);
      ToNatFromNat(n - 1);
      if y == 0xFFFF_FFFF {
        ToNatAllOnes();
      }
      ToNatSucc(y);
    }
  }

  /** `FromNat` inverts `ToNat`. */
  lemma FromNatToNat(y: Word)
    ensures FromNat(ToNat(y)) == y
  {
    ToNatBound(y);
    ToNatFromNat(ToNat(y));
    ToNatInjective(FromNat(ToNat(y)), y);
  }

  /** For a word below 256, `ToNat` agrees with the cheap conversion through `bv8`. */
  lemma {:induction false} SmallToNat(k: Word)
    requires k <= 32
    ensures ToNat(k) == (k as Width) as nat
    decreases k
  {
    if k == 0 {
      ValZero(32);
    } else {
      SmallToNat(k - 1);
      ToNatSucc(k - 1);
    }
  }

  lemma {:induction false} ValPow(k: Width, w: Width)
    requires k < w <= 32
    ensures Val((1 as Word) << k, w) == Pow2(k as nat)
    decreases k
  {
    if k == 0 {
      ValZero(w - 1);
    } else {
      assert ((1 as Word) << k) >> 1 == (1 as Word) << (k - 1);
      assert ((1 as Word) << k) & 1 == 0;
      ValPow(k - 1, w - 1);
    }
  }

  /** The word `1 << k` denotes `2^k`. */
  lemma ToNatPow2W(k: Word)
    requires k < 32
    ensures ToNat(Pow2W(k)) == Pow2(ToNat(k))
  {
    SmallToNat(k);
    assert Pow2W(k) == (1 as Word) << (k as Width);
    ValPow(k as Width, 32);
  }
}
