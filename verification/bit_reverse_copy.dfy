/** `bitReverseCopy` (fft.h:63-76): copy the first `length` elements of
    `input` into `output` in bit-reversed order, after checking that
    `length` is a power of two. */
module BitReverseCopy {
  import opened Words
  import opened Errors
  import opened Log2
  import opened PowerOfTwo
  import opened BitReversal
  import opened Permutations

  /** The lengths `bitReverseCopy` accepts: those `checkPowerTwo` passes. */
  ghost predicate ValidLength(length: Word)
  {
    length == 0 || IsPowerOfTwo(length)
  }

  /** The position element `n` is written to when `wordLength = fastlog2(length)`:
      always below the length `2^wordLength`. */
  function Destination(n: nat, wordLength: Word): (r: nat)
    requires wordLength < 32
    ensures r < Pow2(ToNat(wordLength))
  {
    var d := ReversedIndex(FromNat(n), wordLength);
    ToNatBelow(d, wordLength);
    ToNat(d)
  }

  /** On `[0, 2^wordLength)` the destination map stays in range and undoes
      itself, so it is a bijection of that range. */
  lemma DestinationInvolution(n: nat, wordLength: Word)
    requires wordLength < 32
    requires n < Pow2(ToNat(wordLength))
    ensures Destination(n, wordLength) < Pow2(ToNat(wordLength))
    ensures Destination(Destination(n, wordLength), wordLength) == n
  {
    var x := FromNat(n);
    ToNatPow2W(wordLength);
    ToNatBound(Pow2W(wordLength));
    ToNatFromNat(n);
    ToNatBelow(x, wordLength);
    var d := ReversedIndex(x, wordLength);
    ToNatBelow(d, wordLength);
    FromNatToNat(d);
    ReversedIndexInvolution(x, wordLength);
  }

  /** The same, for every position below the length at once. */
  lemma DestinationsInvolution(length: nat, wordLength: Word)
    requires wordLength < 32
    requires length == Pow2(ToNat(wordLength))
    ensures forall n :: 0 <= n < length ==>
      Destination(n, wordLength) < length && Destination(Destination(n, wordLength), wordLength) == n
  {
    forall n | 0 <= n < length
      ensures Destination(n, wordLength) < length && Destination(Destination(n, wordLength), wordLength) == n
    {
      DestinationInvolution(n, wordLength);
    }
  }

  /** A length `checkPowerTwo` accepts is `2^fastlog2(length)` (or 0, whose
      `fastlog2` is 0). */
  lemma ValidLengthIsPow2(length: Word)
    requires ValidLength(length)
    ensures length == 0 ==> FastLog2(length) == 0 && ToNat(length) == 0
    ensures length != 0 ==> ToNat(length) == Pow2(ToNat(FastLog2(length)))
  {
    if length == 0 {
      FastLog2OfZero();
      ToNatFromNat(0);
    } else {
      SingleBitTest(length);
      FastLog2OfSingleBit(length);
      ToNatPow2W(FastLog2(length));
    }
  }

  /** Reference result: position `q` below the length receives the element
      whose destination is `q`; everything from the length on is `output`'s. */
  function BitReversed<T>(input: seq<T>, output: seq<T>, length: Word): (r: seq<T>)
    requires ValidLength(length)
    requires ToNat(length) <= |input| && ToNat(length) <= |output|
    ensures |r| == |output|
  {
    var wordLength := FastLog2(length);
    var len := ToNat(length);
    ValidLengthIsPow2(length);
    if length == 0 then output
    else
      DestinationsInvolution(len, wordLength);
      seq(|output|, q requires 0 <= q < |output| =>
        if q < len then input[Destination(q, wordLength)] else output[q])
  }

  /** `dest` lists the destination of every position below `len`. The
      quantifier fires only on `Destination` terms, so proofs about the table
      alone never unfold the bit arithmetic behind it. */
  ghost predicate DestinationsOf(dest: seq<nat>, len: nat, wordLength: Word)
    requires wordLength < 32
  {
    && |dest| == len
    && forall q {:trigger Destination(q, wordLength)} :: 0 <= q < len ==> Destination(q, wordLength) == dest[q]
  }

  /** A table of positions that maps `[0, |dest|)` onto itself and undoes itself. */
  ghost predicate IsInvolution(dest: seq<nat>)
  {
    forall q :: 0 <= q < |dest| ==> dest[q] < |dest| && dest[dest[q]] == q
  }

  /** The destination table for a valid length is an involution. */
  lemma DestinationTable(len: nat, wordLength: Word) returns (dest: seq<nat>)
    requires wordLength < 32 && len == Pow2(ToNat(wordLength))
    ensures DestinationsOf(dest, len, wordLength) && IsInvolution(dest)
  {
    DestinationsInvolution(len, wordLength);
    dest := seq(len, q requires 0 <= q < len => Destination(q, wordLength));
  }

  /** After the first `n` steps of the copy loop: a position below the
      length holds its source element once that element has been copied, and
      every other position still holds what `output` held. */
  ghost predicate CopiedUpTo<T>(out: seq<T>, input: seq<T>, output: seq<T>, dest: seq<nat>, n: nat)
  {
    && |out| == |output|
    && forall q :: 0 <= q < |out| ==>
         if q < |dest| && dest[q] < n
         then dest[q] < |input| && out[q] == input[dest[q]]
         else out[q] == output[q]
  }

  /** One loop step writes element `n` to its destination and keeps the
      invariant, because no other position has `n` as its source. */
  lemma CopyStep<T>(out: seq<T>, input: seq<T>, output: seq<T>, dest: seq<nat>, n: nat)
    requires IsInvolution(dest)
    requires n < |dest| <= |input| && |dest| <= |output|
    requires CopiedUpTo(out, input, output, dest, n)
    ensures dest[n] < |out|
    ensures CopiedUpTo(out[dest[n] := input[n]], input, output, dest, n + 1)
  {
    var out' := out[dest[n] := input[n]];
    forall q | 0 <= q < |out'| && q != dest[n] && q < |dest|
      ensures dest[q] != n
    {
    }
  }

  /** When the loop has run `len` steps its result is the reference result. */
  lemma CopyDone<T>(out: seq<T>, input: seq<T>, output: seq<T>, length: Word, dest: seq<nat>)
    requires length != 0 && ValidLength(length)
    requires ToNat(length) <= |input| && ToNat(length) <= |output|
    requires DestinationsOf(dest, ToNat(length), FastLog2(length)) && IsInvolution(dest)
    requires CopiedUpTo(out, input, output, dest, ToNat(length))
    ensures out == BitReversed(input, output, length)
  {
    var r := BitReversed(input, output, length);
    forall q | 0 <= q < |out|
      ensures out[q] == r[q]
    {
      if q < ToNat(length) {
        assert Destination(q, FastLog2(length)) == dest[q];
      }
    }
  }

  /** The same result, read the way the loop writes it: element `n` sits at
      its destination. */
  lemma CopyDoneScatter<T>(out: seq<T>, input: seq<T>, output: seq<T>, len: nat, wordLength: Word, dest: seq<nat>)
    requires wordLength < 32 && len <= |input| && len <= |output|
    requires DestinationsOf(dest, len, wordLength) && IsInvolution(dest)
    requires CopiedUpTo(out, input, output, dest, len)
    ensures forall n :: 0 <= n < len ==>
      Destination(n, wordLength) < |out| && out[Destination(n, wordLength)] == input[n]
  {
    forall n | 0 <= n < len
      ensures Destination(n, wordLength) < |out| && out[Destination(n, wordLength)] == input[n]
    {
      assert Destination(n, wordLength) == dest[n];
      assert dest[dest[n]] == n;
    }
  }

  /** `bitReverseCopy`. `length` is a `uint_t` (the source passes its `size_t`
      argument to `checkPowerTwo`, which takes a `uint_t`). */
  method BitReverseCopy<T>(input: seq<T>, output: seq<T>, length: Word) returns (status: Status, out: seq<T>)
    requires ToNat(length) <= |input| && ToNat(length) <= |output|
    ensures status == Success <==> ValidLength(length)
    ensures |out| == |output|
    ensures status == InvalidInput ==> out == output
    ensures status == Success ==> out == BitReversed(input, output, length)
    ensures status == Success ==> forall n :: 0 <= n < ToNat(length) ==>
      Destination(n, FastLog2(length)) < |out| && out[Destination(n, FastLog2(length))] == input[n]
    ensures status == Success ==> multiset(out[..ToNat(length)]) == multiset(input[..ToNat(length)])
    ensures out[ToNat(length)..] == output[ToNat(length)..]
  {
    var check := CheckPowerTwo(length);
    if check == OutOfRange || check == Verdict(false) {
      return InvalidInput, output;
    }
    status := Success;
    ValidLengthIsPow2(length);
    if length == 0 {
      return status, output;
    }
    var wordLength := FastLog2(length);
    ghost var dest := DestinationTable(ToNat(length), wordLength);
    out := CopyLoop(input, output, ToNat(length), wordLength, dest);
    CopyDone(out, input, output, length, dest);
    CopyDoneScatter(out, input, output, ToNat(length), wordLength, dest);
    LengthMultiset(input, out, dest);
  }

  /** What the copy loop knows throughout: `len` is `2^wordLength`, both
      buffers hold `len` elements, and `dest` is the involutive table of
      destinations. */
  ghost predicate LoopFrame<T>(input: seq<T>, output: seq<T>, len: nat, wordLength: Word, dest: seq<nat>)
  {
    && wordLength < 32 && len == Pow2(ToNat(wordLength))
    && len <= |input| && len <= |output|
    && DestinationsOf(dest, len, wordLength) && IsInvolution(dest)
  }

  /** The loop of `bitReverseCopy` (fft.h:71-74): the counter `i` is the word
      `FromNat(n)` after `n` steps. The guard `n < len` stands for the
      source's `i < length`: `len` is `ToNat(length)`, `n` is below
      `WORD_RANGE`, and `ToNat(FromNat(n)) == n` (`ToNatFromNat`), so the
      two comparisons agree at every step. */
  method CopyLoop<T>(input: seq<T>, output: seq<T>, len: nat, wordLength: Word, ghost dest: seq<nat>)
    returns (out: seq<T>)
    requires LoopFrame(input, output, len, wordLength, dest)
    ensures CopiedUpTo(out, input, output, dest, len)
  {
    out := output;
    var i: Word := 0;
    var n: nat := 0;
    while n < len
      invariant n <= len && i == FromNat(n) && CopiedUpTo(out, input, output, dest, n)
    {
      out := CopyOne(out, input, output, len, wordLength, dest, i, n);
      i := i + 1;
      n := n + 1;
    }
  }

  /** The loop body of `bitReverseCopy` (fft.h:73): element `i` is stored at
      `reverseBits(i) >> (32 - wordLength)`. */
  method CopyOne<T>(out: seq<T>, input: seq<T>, output: seq<T>, len: nat, wordLength: Word, ghost dest: seq<nat>,
                    i: Word, n: nat)
    returns (out': seq<T>)
    requires LoopFrame(input, output, len, wordLength, dest)
    requires n < len && i == FromNat(n) && CopiedUpTo(out, input, output, dest, n)
    ensures CopiedUpTo(out', input, output, dest, n + 1)
  {
    CounterIndices(i, n, wordLength);
    CopyStep(out, input, output, dest, n);
    out' := out[ToNat(ReversedIndex(i, wordLength)) := input[ToNat(i)]];
  }

  /** The loop counter, a word, denotes the step number `n`, and the index it
      writes to is `n`'s destination. */
  lemma CounterIndices(i: Word, n: nat, wordLength: Word)
    requires wordLength < 32 && n < Pow2(ToNat(wordLength))
    requires i == FromNat(n)
    ensures ToNat(i) == n
    ensures ToNat(ReversedIndex(i, wordLength)) == Destination(n, wordLength)
  {
    ToNatPow2W(wordLength);
    ToNatBound(Pow2W(wordLength));
    ToNatFromNat(n);
  }

  /** Gathering through an involutive table rearranges the prefix it covers. */
  lemma LengthMultiset<T>(input: seq<T>, out: seq<T>, dest: seq<nat>)
    requires IsInvolution(dest)
    requires |dest| <= |input| && |dest| <= |out|
    requires forall q :: 0 <= q < |dest| ==> out[q] == input[dest[q]]
    ensures multiset(out[..|dest|]) == multiset(input[..|dest|])
  {
    var len := |dest|;
    forall a, b | 0 <= a < b < len
      ensures dest[a] != dest[b]
    {
      assert dest[dest[a]] == a;
    }
    ReindexPreservesMultiset(input[..len], out[..len], dest);
  }
}
