# fft.h — index skeleton of an iterative radix-2 FFT

A Dafny model of the integer and indexing core of `fft.h`, a header that
computes an in-order Cooley-Tukey FFT over `double complex` samples:

- `checkPowerTwo`, the bit-trick length check;
- `fastlog2`, the De Bruijn multiply-and-lookup base-2 logarithm, with its
  32-entry table;
- `reverseBits`, the five-step swap that reverses a 32-bit word;
- `bitReverseCopy`, which scatters `input[i]` to `output[reverseBits(i) >> (32 - log2 length)]`;
- the stage, group and butterfly loops of `iterativeFFT`.

`uint_t` is modelled as `bv32` (`Words.Word`). Sequence indices are
naturals obtained through an explicit bit-by-bit value function
(`Words.ToNat`). Arrays are sequences: `bitReverseCopy` and `iterativeFFT`
take `output` as a value and return its new contents. The element type is
generic. The complex butterfly of `iterativeFFT` is the parameter
`bf(m, k, u, v)`, which stands for the pair `(u + w·v, u - w·v)` with the
twiddle factor `w = omega_m^k`. So the model covers every index the
algorithm touches and which elements are combined, but not the arithmetic.

Modules, in dependency order:

| module | file | contents |
|---|---|---|
| `Words` | words.dfy | `Word`, `Pow2`, `ToNat`/`FromNat` and the bit-level facts about them |
| `Errors` | errors.dfy | the status `Success \| InvalidInput` |
| `Log2` | fast_log2.dfy | the De Bruijn table and `FastLog2` |
| `PowerOfTwo` | power_of_two.dfy | `CheckPowerTwo` |
| `BitReversal` | bit_reversal.dfy | `ReverseBits` and the destination index |
| `Permutations` | permutations.dfy | reindexing by a permutation preserves the multiset |
| `BitReverseCopy` | bit_reverse_copy.dfy | `bitReverseCopy` and its reference result |
| `Butterfly` | butterfly.dfy | butterfly pairs, one stage, all stages, `IterativeFFT` |
| `Findings` | findings.dfy | the two undefined shifts described below |

Length 0 is accepted: `(0 & (0 - 1)) == 0`, the copy loop runs zero times
and `fastlog2(0) == 0` gives zero stages. On an invalid length
`bitReverseCopy` returns before writing `output` (fft.h:65-68), and the
model states this.

## Model

The reference definitions the operations are proved equal to carry no row of
their own: `BitReverseCopy.BitReversed` (the gather form of the copy),
`Butterfly.Partner` (the other position of a butterfly pair),
`Butterfly.Stage` (one stage, position by position) and `Butterfly.RunStages`
(the composition of the first `n` stages). `BitReverseCopy.BitReverseCopy`,
`Butterfly.ButterflyStage`, `Butterfly.StageLoop` and `Butterfly.IterativeFFT`
are stated against them.

| member | source | states |
|---|---|---|
| PowerOfTwo.CheckPowerTwo | fft.h:35-41 | The `n > UINT_MAX` arm is dead: the result is always a verdict. The verdict is true exactly when `n` is 0 or one of the 32 powers of two. |
| PowerOfTwo.SingleBitTest | fft.h:40 | `(n & (n - 1)) == 0` holds exactly for zero and for `1 << k` with `k < 32`, in both directions. |
| PowerOfTwo.CheckPowerTwoExamples | fft.h:35-41 | `checkPowerTwo` accepts 0, 1, 2, 4, 8 and 1024 and rejects 3 and 5. |
| Log2.Slot | fft.h:46 | The table index `(n * 0x077CB531) >> 27`, computed with 32-bit wrap-around, is below 32 for every word. |
| Log2.TableEntriesAreBitPositions | fft.h:13-17 | Every entry of `MultiplyDeBruijnBitPosition2` is a bit position (below 32). |
| Log2.FastLog2 | fft.h:44-47 | `fastlog2` of any word is a bit position (below 32). |
| Log2.FastLog2OfPow2 | fft.h:44-47 | `fastlog2(1 << k) == k` for each `k` in 0..31. |
| Log2.FastLog2OfSingleBit | fft.h:44-47 | For a non-zero word with no two set bits, `1 << fastlog2(n) == n`. |
| BitReversal.ReverseBits | fft.h:49-61 | Bit `j` of the argument becomes bit `31 - j` of the result, for every `j < 32`. |
| BitReversal.ReverseBitsInvolution | fft.h:49-61 | Reversing twice gives back the word. |
| BitReversal.ReversedIndex | fft.h:73 | The destination index `reverseBits(i) >> (32 - k)` for `1 <= k < 32`, and 0 for `k == 0` (the corrected length-1 case under Findings); in both cases it fits in `k` bits, so it is below the length `2^k`. |
| BitReversal.ReversedIndexIsReversal | fft.h:73 | For `1 <= k < 32` and `i < 2^k`, the destination shifted back up by `32 - k` is `reverseBits(i)`: the destination is the `k`-bit reversal of `i`. |
| BitReversal.ReversedIndexBits | fft.h:73 | For `1 <= k < 32` and `i < 2^k`, bit `j` of `i` is bit `k - 1 - j` of the destination, for every `j < k`: the destination is the `k`-bit reversal of `i`. |
| BitReversal.ReversedIndexInvolution | fft.h:73 | On indices of `k` bits the destination map is its own inverse. |
| BitReversal.ReversedIndexLengthEight | fft.h:73 | For length 8 the destinations of 0..7 are 0, 4, 2, 6, 1, 5, 3, 7. |
| BitReverseCopy.Destination | fft.h:71-73 | The index `ReversedIndex(FromNat(n), k)` as a natural, where `FromNat(n)` is the `uint_t` counter `i` after `n` steps; it is below the length `2^k`. |
| BitReverseCopy.ValidLengthIsPow2 | fft.h:65-70 | A length `checkPowerTwo` accepts is `2^fastlog2(length)` as a natural, or 0 with `fastlog2` 0. |
| BitReverseCopy.DestinationInvolution | fft.h:70-73 | For `i < 2^wordlength`, the destination index is below `2^wordlength` and maps back to `i`. The destination map is therefore a bijection of `[0, length)`. |
| BitReverseCopy.DestinationTable | fft.h:70-73 | The destinations of all positions below the length form an involutive table. |
| BitReverseCopy.CopyStep | fft.h:71-74 | One iteration writes element `n` at its destination. After it, the positions whose source is below `n + 1` hold their source elements and all others are unchanged, because no other position has `n` as its source. |
| BitReverseCopy.CopyOne | fft.h:73 | The loop body, computed on the word counter `i`, is exactly iteration `n` of the previous row. |
| BitReverseCopy.CounterIndices | fft.h:71-73 | The word counter `i` after `n` steps denotes `n`, and the word index it writes to denotes `n`'s destination. |
| BitReverseCopy.CopyLoop | fft.h:71-74 | After `length` iterations every position below the length holds the element whose destination it is. Every other position holds what `output` held. |
| BitReverseCopy.CopyDone | fft.h:71-75 | The finished loop's result is the reference gather-form result `BitReversed`. |
| BitReverseCopy.CopyDoneScatter | fft.h:73 | The same result in the loop's scatter form: `output[dest(i)] == input[i]` for every `i < length`. |
| BitReverseCopy.LengthMultiset | fft.h:71-74 | Gathering through an involutive table makes `output[0..length)` a permutation (equal multiset) of `input[0..length)`. |
| BitReverseCopy.BitReverseCopy | fft.h:63-76 | The status is `Success` exactly when the length passes `checkPowerTwo`. On `InvalidInput` nothing is written. On `Success`: `output[dest(i)] == input[i]`, the result equals the reference result, and the first `length` elements are a permutation of the input's. In both cases positions at or above `length` are untouched. |
| Permutations.ReindexPreservesMultiset | fft.h:71-74 | A sequence obtained by reading another through a permutation of its indices has the same multiset. |
| Butterfly.PartnerInvolution | fft.h:92-97 | In groups of `m = 2 * half`, a position's butterfly partner differs from it, lies in the other half of the group and has it as partner. So the pairs are disjoint two-element sets. |
| Butterfly.PartnerInRange | fft.h:89-97 | When the length is a multiple of `m`, the partner of a position below the length is below the length. |
| Butterfly.ButterflyIteration | fft.h:89-97 | For `j` a multiple of `m` below the length and `k < m/2`, the indices `j+k` and `j+k+m/2` are below the length. They are each other's partners, and `k` is the offset of `j+k` in its group. |
| Butterfly.PairsDisjoint | fft.h:89-97 | Two different iterations `(j, k)` touch four distinct positions. |
| Butterfly.PairsCover | fft.h:89-97 | Every position below the length is `j+k` or `j+k+m/2` for the iteration that starts at its group and its offset. |
| Butterfly.StageAtPair | fft.h:92-97 | The reference stage result at the pair of iteration `(j, k)` is `bf(m, k, a[j+k], a[j+k+m/2])`. |
| Butterfly.ButterflyStage | fft.h:89-100 | The group and butterfly loops of one stage produce the reference stage result: each pair receives its butterfly, and positions at or above the length keep their elements. |
| Butterfly.RunStagesKeepsTail | fft.h:84-101 | No stage touches a position at or above the length. |
| Butterfly.StageLoop | fft.h:84-101 | The stage loop runs `log2 length` stages, stage `i` with group size `2^i`, and produces their composition. |
| Butterfly.IterativeFFT | fft.h:78-103 | `InvalidInput` is returned exactly when the copy fails, with nothing written and no stage run. Otherwise `Success` is returned after `fastlog2(length)` stages, applied to the bit-reversed copy. Positions at or above the length are untouched. |
| Findings.CopyShiftUndefinedAtLengthOne | fft.h:73 | Among accepted non-zero lengths, the shift amount `INTSIZE - wordlength` equals the word width exactly for length 1. |
| Findings.LengthOneIsAccepted | fft.h:65-73 | Length 1 passes `checkPowerTwo`, has `fastlog2` 0 and reaches the shift by 32. |
| Findings.LengthOneCopiesInPlace | fft.h:71-74 | With the length-1 case handled, the copy puts `input[0]` at position 0 and leaves the rest of `output` alone. |
| Findings.LengthOneTransform | fft.h:78-103 | At length 1 no stage runs, and the transform of a single sample is the sample. |
| Findings.StageShiftOverflowsInt | fft.h:84-86 | Length `2^31` passes `checkPowerTwo` and reaches stage 31, where `1 << 31` on an `int` is not representable. |
| Findings.StageSizeFitsWord | fft.h:84-86 | With the unsigned shift, every group size `2^i` of a valid length is at most the length, hence below `2^32`. |

## Left out

- Complex arithmetic is abstracted: `cexp`, `M_PI`, the twiddle factor `omega_m` and its running product `omega` (fft.h:87, 91, 94-98). The butterfly is the parameter `bf(m, k, u, v)`, where `k` is the power of `omega_m` that `omega` holds at iteration `k`. So DFT correctness, linearity, Parseval and the concrete impulse/constant/Nyquist vectors are not stated: they are floating-point facts.
- `eprintf` (fft.h:67) is a diagnostic sink outside this header and has no effect on the result; it is not modelled.
- error.h is not part of this model. Its codes become the datatype `Success | InvalidInput`. `checkPowerTwo`'s result becomes `Verdict(bool) | OutOfRange`. This assumes `E_INVALID_INPUT != 1`, which the test at fft.h:65 needs, and `E_INVALID_INPUT != E_SUCCESS`, which the test at fft.h:80 needs; the two distinct constructors of `Errors.Status` encode both.
- `input` and `output` are distinct sequences. Aliasing is not modelled, and `input` is unchanged because it is a value.
- `length` is a `uint_t` word. A `size_t` length of `2^32` or more, which the call `checkPowerTwo(length)` would truncate, is not modelled.
- The counters `j`, `k`, `m` and `i` of `iterativeFFT` are naturals. `j + k + m/2`, `j + m` and `m` stay at or below the length, which is below `2^32` (`ButterflyIteration`, `NextGroup`, `StageSizeFitsWord`). `i` stays at or below `fastlog2(length) + 1 <= 32`, since `Log2.FastLog2` is below 32. So the `uint_t` arithmetic never wraps, apart from the signed shift under Findings.
- `fastlog2(length)` in the stage loop condition (fft.h:84) is evaluated once, because it is pure and `length` does not change.
- Log2.FastLog2: on inputs other than 0 and the powers of two, only the bound below 32 is stated. The source documents the function for powers of two only.

## Findings

| source | as written | input that shows it | evidently intended | confidence | as-written member | corrected member |
|---|---|---|---|---|---|---|
| fft.h:73 | `reverseBits(i) >> (INTSIZE - wordlength)` shifts a 32-bit value by 32 when `wordlength` is 0. Section 6.5.7 of C11 leaves that undefined. | `length = 1`, which passes `checkPowerTwo` with `fastlog2(1) = 0` | the single element is copied to position 0 | not executed | Findings.CopyShiftUndefinedAtLengthOne | Findings.LengthOneCopiesInPlace |
| fft.h:86 | `uint_t m = 1 << i` shifts the `int` constant 1. At `i = 31` the value `2^31` is not an `int`, which section 6.5.7 of C11 leaves undefined. | `length = 2^31`, stage `i = 31` | the unsigned shift `1u << i` | not executed | Findings.StageShiftOverflowsInt | Findings.StageSizeFitsWord |

The rest of the model uses the corrected forms. `BitReversal.ReversedIndex`
returns 0 when the word length is 0, and `Butterfly.StageLoop` computes the
group size as the natural `2^i`.
