/** The index skeleton of `iterativeFFT` (fft.h:78-103). Stage `i` works on
    groups of `m = 2^i` consecutive elements; inside a group, the element at
    offset `k < m/2` is combined with the one at offset `k + m/2`. The
    combine step itself (the complex butterfly with twiddle factor
    `omega_m^k`) is a parameter `bf(m, k, u, v)` over a generic element type,
    so only the index structure is modelled. */
module Butterfly {
  import opened Words
  import opened Errors
  import opened Log2
  import opened BitReverseCopy

  /** A butterfly: group size `m`, offset `k` in the group, and the two
      elements it combines, giving the two elements it stores. */
  type Combine<!T> = (nat, nat, T, T) -> (T, T)

  /** A multiple of `m` strictly between `-m` and `m` is zero. */
  lemma SmallMultiple(m: int, d: int)
    requires m > 0 && -m < m * d < m
    ensures d == 0
  {
  }

  /** Associativity of `*`, stated on its own so that the proofs using it
      see one instance instead of searching nonlinear arithmetic. */
  lemma MulAssoc(x: int, y: int, z: int)
    ensures (x * y) * z == x * (y * z)
  {
  }

  /** Euclidean division is determined by its defining equation. */
  lemma ModUnique(a: int, m: int, q: int, r: int)
    requires m > 0 && 0 <= r < m && a == m * q + r
    ensures a % m == r && a / m == q
  {
    var q', r' := a / m, a % m;
    assert m * (q - q') == r' - r;
    SmallMultiple(m, q - q');
  }

  /** `2^s` divides `2^L` when `s <= L`. */
  lemma Pow2Divides(s: nat, l: nat)
    requires s <= l
    ensures Pow2(l) % Pow2(s) == 0
  {
    Pow2Add(s, l - s);
    ModUnique(Pow2(l), Pow2(s), Pow2(l - s), 0);
  }

  /** A multiple of `2^L` is a multiple of every `2^s` with `s <= L`. */
  lemma Pow2DividesMultiple(len: nat, s: nat, l: nat)
    requires s <= l && len % Pow2(l) == 0
    ensures len % Pow2(s) == 0
  {
    Pow2Add(s, l - s);
    var x, y := Pow2(s), Pow2(l - s);
    var c := len / (x * y);
    MulAssoc(x, y, c);
    ModUnique(len, x, y * c, 0);
  }

  /** A multiple of `2 * half` is a multiple of `half`. */
  lemma HalfDivides(len: nat, half: nat)
    requires half >= 1 && len % (2 * half) == 0
    ensures len % half == 0
  {
    ModUnique(len, half, 2 * (len / (2 * half)), 0);
  }

  /** The element at offset `k` of the group starting at `j` sits at offset `k`. */
  lemma GroupOffset(j: nat, k: nat, m: nat)
    requires m >= 1 && j % m == 0 && k < m
    ensures (j + k) % m == k
  {
    ModUnique(j + k, m, j / m, k);
  }

  /** Every position is the start of its group plus its offset. */
  lemma GroupStart(p: nat, m: nat)
    requires m >= 1
    ensures p % m <= p && (p - p % m) % m == 0
  {
    ModUnique(p - p % m, m, p / m, 0);
  }

  /** Groups tile `[0, len)`: the group starting at `j` ends by `len`. */
  lemma NextGroup(j: nat, m: nat, len: nat)
    requires m >= 1 && j % m == 0 && len % m == 0 && j < len
    ensures j + m <= len && (j + m) % m == 0
  {
    var a, b := j / m, len / m;
    assert j == m * a && len == m * b;
    assert a < b;
    assert m * (a + 1) <= m * b;
    ModUnique(j + m, m, a + 1, 0);
  }

  /** `p` is in the first half of its group of `2 * half`. */
  predicate IsTop(p: nat, half: nat)
    requires half >= 1
  {
    p % (2 * half) < half
  }

  /** The position `p` is combined with in a stage whose groups have `2 * half` elements. */
  function Partner(p: nat, half: nat): nat
    requires half >= 1
  {
    GroupStart(p, 2 * half);
    if IsTop(p, half) then p + half else p - half
  }

  /** Partnering swaps the two halves of a group and undoes itself: the
      pairs `{p, Partner(p)}` are two-element sets that partition the naturals. */
  lemma PartnerInvolution(p: nat, half: nat)
    requires half >= 1
    ensures Partner(p, half) != p
    ensures IsTop(Partner(p, half), half) <==> !IsTop(p, half)
    ensures Partner(Partner(p, half), half) == p
  {
    var m := 2 * half;
    GroupStart(p, m);
    var j, r := p - p % m, p % m;
    if r < half {
      GroupOffset(j, r + half, m);
    } else {
      GroupOffset(j, r - half, m);
    }
  }

  /** A length that is a multiple of the group size keeps partners in range. */
  lemma PartnerInRange(p: nat, half: nat, len: nat)
    requires half >= 1 && len % (2 * half) == 0 && p < len
    ensures Partner(p, half) < len
  {
    var m := 2 * half;
    GroupStart(p, m);
    NextGroup(p - p % m, m, len);
  }

  /** Iteration `(j, k)` of the inner loops (fft.h:89-99) combines a top
      position with its partner, both below `len`, and `k` is the top's
      offset in its group. */
  lemma ButterflyIteration(j: nat, k: nat, half: nat, len: nat)
    requires half >= 1 && len % (2 * half) == 0
    requires j % (2 * half) == 0 && j < len && k < half
    ensures j + k + half < len
    ensures IsTop(j + k, half) && (j + k) % (2 * half) == k
    ensures Partner(j + k, half) == j + k + half && Partner(j + k + half, half) == j + k
  {
    GroupOffset(j, k, 2 * half);
    NextGroup(j, 2 * half, len);
    PartnerInvolution(j + k, half);
  }

  /** Distinct iterations touch disjoint pairs of positions. */
  lemma PairsDisjoint(j: nat, k: nat, j': nat, k': nat, half: nat, len: nat)
    requires half >= 1 && len % (2 * half) == 0
    requires j % (2 * half) == 0 && j < len && k < half
    requires j' % (2 * half) == 0 && j' < len && k' < half
    requires j != j' || k != k'
    ensures j + k != j' + k' && j + k != j' + k' + half
    ensures j + k + half != j' + k' && j + k + half != j' + k' + half
  {
    ButterflyIteration(j, k, half, len);
    ButterflyIteration(j', k', half, len);
  }

  /** Every position below `len` is touched by the iteration that starts at
      its group and at its offset within the group's top half. */
  lemma PairsCover(p: nat, half: nat, len: nat)
    requires half >= 1 && len % (2 * half) == 0 && p < len
    ensures var t := if IsTop(p, half) then p else Partner(p, half);
      var j, k := t - t % (2 * half), t % (2 * half);
      && t % (2 * half) <= t && j % (2 * half) == 0 && j < len && k < half
      && (p == j + k || p == j + k + half)
  {
    var m := 2 * half;
    PartnerInvolution(p, half);
    PartnerInRange(p, half, len);
    var t := if IsTop(p, half) then p else Partner(p, half);
    GroupStart(t, m);
    ButterflyIteration(t - t % m, t % m, half, len);
  }

  /** Reference result of one stage whose groups have `2 * half` elements:
      each position below `len` receives its side of the butterfly on its
      pair; positions from `len` on keep their elements. */
  function Stage<T>(a: seq<T>, len: nat, half: nat, bf: Combine<T>): (r: seq<T>)
    requires half >= 1 && len <= |a| && len % (2 * half) == 0
    ensures |r| == |a|
  {
    var m := 2 * half;
    seq(|a|, p requires 0 <= p < |a| =>
      if p >= len then a[p]
      else
        PartnerInRange(p, half, len);
        var q := Partner(p, half);
        if IsTop(p, half) then bf(m, p % m, a[p], a[q]).0
        else bf(m, q % m, a[q], a[p]).1)
  }

  /** What the loops of one stage produce at the pair of iteration `(j, k)`. */
  lemma StageAtPair<T>(a: seq<T>, len: nat, half: nat, bf: Combine<T>, j: nat, k: nat)
    requires half >= 1 && len <= |a| && len % (2 * half) == 0
    requires j % (2 * half) == 0 && j < len && k < half
    ensures j + k + half < len
    ensures Stage(a, len, half, bf)[j + k] == bf(2 * half, k, a[j + k], a[j + k + half]).0
    ensures Stage(a, len, half, bf)[j + k + half] == bf(2 * half, k, a[j + k], a[j + k + half]).1
  {
    ButterflyIteration(j, k, half, len);
    PartnerInvolution(j + k, half);
  }

  /** One stage of `iterativeFFT` (fft.h:89-100): the groups start at
      `j = 0, m, 2m, ...` below `len`; in each, offsets `k < m/2` combine
      `out[j+k]` and `out[j+k+m/2]`, both read before either is written. */
  method ButterflyStage<T>(a: seq<T>, len: nat, half: nat, bf: Combine<T>) returns (out: seq<T>)
    requires half >= 1 && len <= |a| && len % (2 * half) == 0
    ensures out == Stage(a, len, half, bf)
  {
    var m := 2 * half;
    ghost var s := Stage(a, len, half, bf);
    out := a;
    var j := 0;
    while j < len
      invariant j <= len && j % m == 0 && |out| == |a|
      invariant forall p :: 0 <= p < |a| ==> out[p] == if p < j then s[p] else a[p]
    {
      var k := 0;
      while k < half
        invariant k <= half && |out| == |a|
        invariant forall p :: 0 <= p < |a| ==>
          out[p] == if p < j + k || j + half <= p < j + half + k then s[p] else a[p]
      {
        StageAtPair(a, len, half, bf, j, k);
        var u := out[j + k];
        var v := out[j + k + half];
        var pair := bf(m, k, u, v);
        out := out[j + k := pair.0][j + k + half := pair.1];
        k := k + 1;
      }
      NextGroup(j, m, len);
      j := j + m;
    }
  }

  /** The first `stages` stages applied to `a`: stage `i` has groups of `2^i`. */
  function RunStages<T>(a: seq<T>, len: nat, stages: nat, bf: Combine<T>): (r: seq<T>)
    requires len <= |a| && len % Pow2(stages) == 0
    ensures |r| == |a|
  {
    if stages == 0 then a
    else
      HalfDivides(len, Pow2(stages - 1));
      Stage(RunStages(a, len, stages - 1, bf), len, Pow2(stages - 1), bf)
  }

  /** No stage touches a position at or beyond `len`. */
  lemma {:induction false} RunStagesKeepsTail<T>(a: seq<T>, len: nat, stages: nat, bf: Combine<T>)
    requires len <= |a| && len % Pow2(stages) == 0
    ensures RunStages(a, len, stages, bf)[len..] == a[len..]
  {
    if stages != 0 {
      HalfDivides(len, Pow2(stages - 1));
      RunStagesKeepsTail(a, len, stages - 1, bf);
      var prev := RunStages(a, len, stages - 1, bf);
      var r := Stage(prev, len, Pow2(stages - 1), bf);
      assert r[len..] == prev[len..];
    }
  }

  /** `iterativeFFT`: the bit-reversal copy, then `fastlog2(length)` stages
      with group sizes `m = 2, 4, ..., length`. `stages` reports how many
      stage loops ran. */
  method IterativeFFT<T>(input: seq<T>, output: seq<T>, length: Word, bf: Combine<T>)
    returns (status: Status, out: seq<T>, stages: nat)
    requires ToNat(length) <= |input| && ToNat(length) <= |output|
    ensures status == InvalidInput <==> !ValidLength(length)
    ensures status == InvalidInput ==> out == output && stages == 0
    ensures status == Success ==> stages == ToNat(FastLog2(length))
    ensures status == Success ==>
      && ToNat(length) % Pow2(stages) == 0
      && out == RunStages(BitReversed(input, output, length), ToNat(length), stages, bf)
    ensures |out| == |output| && out[ToNat(length)..] == output[ToNat(length)..]
  {
    var copyStatus, copied := BitReverseCopy.BitReverseCopy(input, output, length);
    if copyStatus != Success {
      return InvalidInput, output, 0;
    }
    ValidLengthIsPow2(length);
    Pow2Divides(ToNat(FastLog2(length)), ToNat(FastLog2(length)));
    status := Success;
    out, stages := StageLoop(copied, ToNat(length), ToNat(FastLog2(length)), bf);
    RunStagesKeepsTail(copied, ToNat(length), stages, bf);
  }

  /** The stage loop of `iterativeFFT` (fft.h:84-101): stage `i = 1, ...,
      logLen` uses groups of `m = 2^i` and half-groups of `m/2`. */
  method StageLoop<T>(a: seq<T>, len: nat, logLen: nat, bf: Combine<T>) returns (out: seq<T>, stages: nat)
    requires len <= |a| && len % Pow2(logLen) == 0
    ensures stages == logLen && out == RunStages(a, len, logLen, bf)
  {
    out := a;
    var i := 1;
    stages := 0;
    while i <= logLen
      invariant 1 <= i <= logLen + 1 && stages == i - 1
      invariant len % Pow2(stages) == 0
      invariant out == RunStages(a, len, stages, bf)
    {
      var m := Pow2(i);
      var half := m / 2;
      Pow2DividesMultiple(len, i, logLen);
      out := ButterflyStage(out, len, half, bf);
      i := i + 1;
      stages := stages + 1;
    }
  }
}
