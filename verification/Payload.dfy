/** What the payload mutator's calls do to the bytes of a buffer, and the algebra of whole
    sequences of calls. */
module Payload {
  import opened Bits
  import opened Sequences

  const APPLY_KEY: nat := 0x5555555555555555
  const BLOCK_KEY: nat := 0x9E3779B97F4A7C15

  datatype Error = SliceOutOfRange | InvalidEntropy | SeedOutOfRange | Closed | Released

  datatype Result<+T> = Ok(value: T) | Err(error: Error)

  datatype Call =
    | ApplyEntropy(offset: nat, size: nat, seed: int)
    | MutateBlock(offset: nat, size: nat, ratio: real, seed: int)
    | MutateDirect(offset: nat, size: nat, ratio: real, seed: int)

  /** A run of whole 64-bit words, each XORed with one mask. */
  datatype Span = Span(start: nat, words: nat, mask: nat)

  /** The key is XORed into the seed and the result must fit a uint64; with no word to
      change the mask is never built, so no seed is rejected then. */
  function MaskedSpan(start: nat, words: nat, seed: int, key: nat): Result<Span> {
    if words == 0 then Ok(Span(start, 0, 0))
    else if 0 <= seed < WORD_SIZE then Ok(Span(start, words, Xor(seed, key)))
    else Err(SeedOutOfRange)
  }

  /** The words a call changes in a buffer of `bufferSize` bytes, or how it fails. */
  function SpanOf(bufferSize: nat, call: Call): Result<Span> {
    match call
    case ApplyEntropy(offset, size, seed) =>
      if offset + size > bufferSize then Err(SliceOutOfRange)
      else MaskedSpan(offset, size / 8, seed, APPLY_KEY)
    case MutateBlock(offset, size, ratio, seed) =>
      if !(0.0 <= ratio <= 1.0) then Err(InvalidEntropy)
      else if offset + size > bufferSize then Err(SliceOutOfRange)
      else MaskedSpan(offset, Portion(size / 8, ratio), seed, BLOCK_KEY)
    case MutateDirect(offset, size, ratio, seed) =>
      MaskedSpan(offset, Portion(size / 8, Clamp(ratio)), seed, BLOCK_KEY)
  }

  function InSpan(span: Span, a: nat): bool {
    span.start <= a < span.start + 8 * span.words
  }

  /** Byte-by-byte XOR with the little-endian bytes of the mask; all other bytes stay. */
  function XorSpan(data: seq<byte>, span: Span): (r: seq<byte>)
    ensures |r| == |data|
  {
    seq(|data|, a requires 0 <= a < |data| =>
      if InSpan(span, a) then XorByte(data[a], MaskByte(span.mask, (a - span.start) % 8)) else data[a])
  }

  function Effect(data: seq<byte>, call: Call): (r: seq<byte>)
    ensures |r| == |data|
  {
    match SpanOf(|data|, call)
    case Ok(span) => XorSpan(data, span)
    case Err(_) => data
  }

  /** For every legal ratio the two proportional mutators change a view in the same way. */
  lemma DirectEqualsBlock(data: seq<byte>, offset: nat, size: nat, ratio: real, seed: int)
    requires 0.0 <= ratio <= 1.0 && offset + size <= |data|
    ensures Effect(data, MutateDirect(offset, size, ratio, seed)) == Effect(data, MutateBlock(offset, size, ratio, seed))
  {
  }

  /** Every byte a call may not touch keeps its value: bytes outside the slice, the tail of
      fewer than eight bytes, and words at or past the mutated portion. */
  lemma EffectFrame(data: seq<byte>, call: Call, a: nat)
    requires a < |data|
    requires
      || a < call.offset
      || a >= call.offset + 8 * (call.size / 8)
      || (!call.ApplyEntropy? && a >= call.offset + 8 * Portion(call.size / 8, Clamp(call.ratio)))
    ensures Effect(data, call)[a] == data[a]
  {
    hide XorByte;
    hide MaskByte;
  }

  /** How a call fails: a bad ratio comes before a bad slice, and that before a seed that does not fit
      a word, which counts only if there is a word to change. */
  lemma CallFailsIff(bufferSize: nat, call: Call)
    ensures SpanOf(bufferSize, call) == Err(InvalidEntropy)
            <==> call.MutateBlock? && (call.ratio < 0.0 || call.ratio > 1.0)
    ensures SpanOf(bufferSize, call) == Err(SliceOutOfRange)
            <==> && !call.MutateDirect? && call.offset + call.size > bufferSize
                 && (call.MutateBlock? ==> 0.0 <= call.ratio <= 1.0)
    ensures SpanOf(bufferSize, call) == Err(SeedOutOfRange)
            <==> && (!call.MutateDirect? ==> call.offset + call.size <= bufferSize)
                 && (call.MutateBlock? ==> 0.0 <= call.ratio <= 1.0)
                 && (if call.ApplyEntropy? then call.size >= 8 else (call.size / 8) as real * call.ratio >= 1.0)
                 && (call.seed < 0 || call.seed >= 0x1_0000_0000_0000_0000)
    ensures SpanOf(bufferSize, call).Err? ==> SpanOf(bufferSize, call).error in {InvalidEntropy, SliceOutOfRange, SeedOutOfRange}
  {
    hide Xor;
    hide Portion;
    hide Clamp;
    if !call.ApplyEntropy? {
      PortionReaches(call.size / 8, call.ratio, 0);
      ClampIdentity(call.ratio);
    }
  }

  lemma ClampIdentity(ratio: real)
    ensures 0.0 <= ratio <= 1.0 ==> Clamp(ratio) == ratio
  {
  }

  /** Does the mutated portion of `count` words go past word `j`? */
  lemma PortionReaches(count: nat, ratio: real, j: nat)
    ensures j < count ==> (j < Portion(count, Clamp(ratio)) <==> j as real + 1.0 <= count as real * ratio)
    ensures j >= count ==> j >= Portion(count, Clamp(ratio))
    ensures count == 0 ==> count as real * ratio == 0.0
  {
    var n := Portion(count, Clamp(ratio));
    if ratio < 0.0 {
      assert count as real * ratio <= 0.0;
      assert count as real * Clamp(ratio) == 0.0;
    } else if ratio > 1.0 {
      assert count as real * ratio >= count as real;
      assert count as real * Clamp(ratio) == count as real;
    }
    assert j < n <==> (j + 1) as real <= n as real;
    assert j >= n ==> (j + 1) as real >= (n + 1) as real;
  }

  /** `apply_entropy` XORs every whole word of its slice with seed ^ 0x55..., byte by byte, and
      nothing else. */
  lemma ApplyChanges(data: seq<byte>, offset: nat, size: nat, seed: int, a: nat)
    requires offset + size <= |data| && 0 <= seed < 0x1_0000_0000_0000_0000 && a < |data|
    ensures Effect(data, ApplyEntropy(offset, size, seed))[a]
            == if offset <= a < offset + size - size % 8
               then XorByte(data[a], MaskByte(Xor(seed, 0x5555555555555555), (a - offset) % 8))
               else data[a]
  {
    hide Xor;
    hide XorByte;
    hide MaskByte;
  }

  /** The proportional mutators XOR byte `i` of word `j` of their slice exactly when word `j` lies wholly
      in the first count * ratio words. A ratio outside [0, 1] is refused by one and clamped by the other. */
  lemma ProportionChanges(data: seq<byte>, offset: nat, size: nat, ratio: real, seed: int, j: nat, i: nat)
    requires offset + size <= |data| && 0 <= seed < 0x1_0000_0000_0000_0000
    requires i < 8 && 8 * j + 8 <= size
    ensures var a := offset + 8 * j + i;
            var changed := if j as real + 1.0 <= (size / 8) as real * ratio
                           then XorByte(data[a], MaskByte(Xor(seed, 0x9E3779B97F4A7C15), i)) else data[a];
            && Effect(data, MutateDirect(offset, size, ratio, seed))[a] == changed
            && Effect(data, MutateBlock(offset, size, ratio, seed))[a] == if 0.0 <= ratio <= 1.0 then changed else data[a]
  {
    hide *;
    var n, at := Portion(size / 8, Clamp(ratio)), offset + 8 * j + i;
    var span := ProportionalSpan(|data|, offset, size, ratio, seed);
    PortionReaches(size / 8, ratio, j);
    InSpanAt(span, at, j, i, n);
    SpanChanges(data, MutateDirect(offset, size, ratio, seed), span, at);
    if 0.0 <= ratio <= 1.0 {
      SpanChanges(data, MutateBlock(offset, size, ratio, seed), span, at);
    } else {
      FailedCall(data, MutateBlock(offset, size, ratio, seed));
    }
  }

  lemma ProportionalSpan(bufferSize: nat, offset: nat, size: nat, ratio: real, seed: int) returns (span: Span)
    requires offset + size <= bufferSize && 0 <= seed < 0x1_0000_0000_0000_0000
    ensures span.start == offset && span.words == Portion(size / 8, Clamp(ratio))
    ensures span.words > 0 ==> span.mask == Xor(seed, 0x9E3779B97F4A7C15)
    ensures SpanOf(bufferSize, MutateDirect(offset, size, ratio, seed)) == Ok(span)
    ensures if 0.0 <= ratio <= 1.0 then SpanOf(bufferSize, MutateBlock(offset, size, ratio, seed)) == Ok(span)
            else SpanOf(bufferSize, MutateBlock(offset, size, ratio, seed)).Err?
  {
    hide Xor;
    hide Portion;
    var n := Portion(size / 8, Clamp(ratio));
    span := if n == 0 then Span(offset, 0, 0) else Span(offset, n, Xor(seed, BLOCK_KEY));
  }

  lemma InSpanAt(span: Span, a: nat, j: nat, i: nat, n: nat)
    requires i < 8 && span.words == n && a == span.start + 8 * j + i
    ensures InSpan(span, a) <==> j < n
    ensures InSpan(span, a) ==> (a - span.start) % 8 == i
  {
  }

  lemma FailedCall(data: seq<byte>, call: Call)
    requires SpanOf(|data|, call).Err?
    ensures Effect(data, call) == data
  {
  }

  lemma SpanChanges(data: seq<byte>, call: Call, span: Span, a: nat)
    requires SpanOf(|data|, call) == Ok(span) && a < |data|
    ensures Effect(data, call)[a]
            == if InSpan(span, a) then XorByte(data[a], MaskByte(span.mask, (a - span.start) % 8)) else data[a]
  {
    hide SpanOf;
    hide XorByte;
    hide MaskByte;
  }

  // ----- sequences of calls -----

  function Run(data: seq<byte>, calls: seq<Call>): (r: seq<byte>)
    ensures |r| == |data|
  {
    if calls == [] then data
    else Effect(Run(data, calls[..|calls| - 1]), calls[|calls| - 1])
  }

  /** What one call XORs into byte `a`. */
  function Mark(bufferSize: nat, call: Call, a: nat): byte {
    match SpanOf(bufferSize, call)
    case Ok(span) => if InSpan(span, a) then MaskByte(span.mask, (a - span.start) % 8) else 0
    case Err(_) => 0
  }

  function Marks(bufferSize: nat, calls: seq<Call>, a: nat): nat {
    if calls == [] then 0
    else Xor(Marks(bufferSize, calls[..|calls| - 1], a), Mark(bufferSize, calls[|calls| - 1], a))
  }

  lemma EffectAt(data: seq<byte>, call: Call, a: nat)
    requires a < |data|
    ensures Effect(data, call)[a] == Xor(data[a], Mark(|data|, call, a))
  {
    hide Xor;
    hide MaskByte;
    XorZero(data[a]);
  }

  lemma {:induction false} RunAt(data: seq<byte>, calls: seq<Call>, a: nat)
    requires a < |data|
    ensures Run(data, calls)[a] == Xor(data[a], Marks(|data|, calls, a))
  {
    hide Xor;
    hide Effect;
    hide Mark;
    if calls == [] {
      XorZero(data[a]);
    } else {
      var init, last := calls[..|calls| - 1], calls[|calls| - 1];
      RunAt(data, init, a);
      EffectAt(Run(data, init), last, a);
      XorAssociates(data[a], Marks(|data|, init, a), Mark(|data|, last, a));
    }
  }

  lemma {:induction false} MarksWithout(bufferSize: nat, calls: seq<Call>, i: nat, a: nat)
    requires i < |calls|
    ensures Marks(bufferSize, calls, a) == Xor(Marks(bufferSize, Without(calls, i), a), Mark(bufferSize, calls[i], a))
  {
    hide Xor;
    hide Mark;
    var n := |calls| - 1;
    if i == n {
      assert Without(calls, i) == calls[..n];
    } else {
      var init, last := calls[..n], calls[n];
      MarksWithout(bufferSize, init, i, a);
      assert Without(calls, i)[..n - 1] == Without(init, i);
      var x, y, z := Marks(bufferSize, Without(init, i), a), Mark(bufferSize, calls[i], a), Mark(bufferSize, last, a);
      XorAssociates(x, y, z);
      XorCommutes(y, z);
      XorAssociates(x, z, y);
    }
  }

  /** Both lists contain every call equally often, modulo two. */
  ghost predicate EquallyOdd(xs: seq<Call>, ys: seq<Call>) {
    forall c :: multiset(xs)[c] % 2 == multiset(ys)[c] % 2
  }

  lemma ParityWithoutBoth(xs: seq<Call>, i: nat, ys: seq<Call>, j: nat)
    requires EquallyOdd(xs, ys) && i < |xs| && j < |ys| && xs[i] == ys[j]
    ensures EquallyOdd(Without(xs, i), Without(ys, j))
  {
    hide Without;
    forall c ensures multiset(Without(xs, i))[c] % 2 == multiset(Without(ys, j))[c] % 2 {
      CountWithout(xs, i, c);
      CountWithout(ys, j, c);
      assert multiset(xs)[c] % 2 == multiset(ys)[c] % 2;
    }
  }

  lemma TwiceMore(n: nat, k: nat)
    ensures (n + k + k) % 2 == n % 2
  {
  }

  lemma ParityWithoutPair(xs: seq<Call>, i: nat, j: nat, ys: seq<Call>)
    requires EquallyOdd(xs, ys) && i < j < |xs| && xs[i] == xs[j]
    ensures EquallyOdd(Without(Without(xs, j), i), ys)
  {
    var rest := Without(xs, j);
    assert |rest| == |xs| - 1 && rest[i] == xs[i];
    hide Without;
    forall c ensures multiset(Without(rest, i))[c] % 2 == multiset(ys)[c] % 2 {
      CountWithout(xs, j, c);
      CountWithout(rest, i, c);
      TwiceMore(multiset(Without(rest, i))[c], if xs[i] == c then 1 else 0);
      assert multiset(xs)[c] % 2 == multiset(ys)[c] % 2;
    }
  }

  lemma {:induction false} MarksParity(bufferSize: nat, xs: seq<Call>, ys: seq<Call>, a: nat)
    requires EquallyOdd(xs, ys)
    ensures Marks(bufferSize, xs, a) == Marks(bufferSize, ys, a)
    decreases |xs| + |ys|, if xs == [] then 1 else 0
  {
    hide Xor;
    hide Mark;
    if xs != [] {
      var n := |xs| - 1;
      var c, init := xs[n], xs[..n];
      assert Without(xs, n) == init;
      MarksWithout(bufferSize, xs, n, a);
      if c in init {
        var i :| 0 <= i < n && init[i] == c;
        ParityWithoutPair(xs, i, n, ys);
        MarksWithout(bufferSize, init, i, a);
        XorCancels(Marks(bufferSize, Without(init, i), a), Mark(bufferSize, c, a));
        MarksParity(bufferSize, Without(init, i), ys, a);
      } else {
        assert multiset(xs) == multiset(init) + multiset{c} by { MultisetWithout(xs, n); }
        assert multiset(ys)[c] % 2 == multiset(xs)[c] % 2 == 1;
        var j :| 0 <= j < |ys| && ys[j] == c;
        ParityWithoutBoth(xs, n, ys, j);
        MarksWithout(bufferSize, ys, j, a);
        MarksParity(bufferSize, init, Without(ys, j), a);
      }
    } else if ys != [] {
      MarksParity(bufferSize, ys, xs, a);
    }
  }

  /** The final buffer depends only on the parity with which each call occurs. */
  lemma RunDependsOnParity(data: seq<byte>, xs: seq<Call>, ys: seq<Call>)
    requires EquallyOdd(xs, ys)
    ensures Run(data, xs) == Run(data, ys)
  {
    hide Xor;
    hide Run;
    hide Marks;
    forall a | 0 <= a < |data| ensures Run(data, xs)[a] == Run(data, ys)[a] {
      RunAt(data, xs, a);
      RunAt(data, ys, a);
      MarksParity(|data|, xs, ys, a);
    }
  }

  /** Any two orders of the same calls leave the same buffer, however their slices overlap. */
  lemma OrderIndependence(data: seq<byte>, xs: seq<Call>, ys: seq<Call>)
    requires multiset(xs) == multiset(ys)
    ensures Run(data, xs) == Run(data, ys)
  {
    RunDependsOnParity(data, xs, ys);
  }

  function Dropping(calls: seq<Call>, c: Call): (r: seq<Call>)
    ensures multiset(r) == multiset(calls)[c := 0]
  {
    if calls == [] then []
    else
      assert calls == calls[..|calls| - 1] + [calls[|calls| - 1]];
      var r := Dropping(calls[..|calls| - 1], c);
      if calls[|calls| - 1] == c then r else r + [calls[|calls| - 1]]
  }

  /** A call made an even number of times might as well not have been made. */
  lemma EvenCallsCancel(data: seq<byte>, calls: seq<Call>, c: Call)
    requires multiset(calls)[c] % 2 == 0
    ensures Run(data, calls) == Run(data, Dropping(calls, c))
  {
    RunDependsOnParity(data, calls, Dropping(calls, c));
  }

  // ----- payload histories from a zeroed buffer -----

  function Zeros(n: nat): seq<byte> {
    seq(n, _ => 0)
  }

  /** A buffer whose whole words are all `word` and whose tail is zero. */
  function Filled(n: nat, word: nat): (r: seq<byte>)
    ensures |r| == n
  {
    seq(n, a requires 0 <= a < n => if a < 8 * (n / 8) then MaskByte(word, a % 8) else 0)
  }

  /** The mask of the worker engine's op: the same for every op. */
  function EngineMask(seed: nat): nat {
    Xor(seed, APPLY_KEY)
  }

  /** After op number `k` (from 1): the mask for odd `k`, zero for even `k`. */
  function EnginePayload(seed: nat, blockSize: nat, k: nat): (r: seq<byte>)
    ensures |r| == blockSize
  {
    if k % 2 == 1 then Filled(blockSize, EngineMask(seed)) else Zeros(blockSize)
  }

  /** The emulator's worker adds the op number to its seed: XOR of all masks so far. */
  function EmulatorWord(seed: nat, k: nat): nat {
    if k == 0 then 0 else Xor(EmulatorWord(seed, k - 1), Xor(seed + k - 1, APPLY_KEY))
  }

  function EmulatorPayload(seed: nat, blockSize: nat, k: nat): (r: seq<byte>)
    ensures |r| == blockSize
  {
    Filled(blockSize, EmulatorWord(seed, k))
  }

  lemma {:induction false} ToBytesZero(k: nat, j: nat)
    requires j < k
    ensures ToBytes(0, k)[j] == 0
  {
    if j > 0 {
      ToBytesZero(k - 1, j - 1);
    }
  }

  lemma FilledZero(n: nat)
    ensures Filled(n, 0) == Zeros(n)
  {
    hide ToBytes;
    forall a | 0 <= a < n ensures Filled(n, 0)[a] == 0 {
      ToBytesZero(8, a % 8);
    }
  }

  /** One whole-buffer call XORs its mask into the word that fills the buffer. */
  lemma ApplyOnFilled(n: nat, word: nat, seed: nat)
    requires seed < WORD_SIZE
    ensures Effect(Filled(n, word), ApplyEntropy(0, n, seed)) == Filled(n, Xor(word, EngineMask(seed)))
  {
    hide Xor;
    hide ToBytes;
    var before, after := Filled(n, word), Filled(n, Xor(word, EngineMask(seed)));
    var result := Effect(before, ApplyEntropy(0, n, seed));
    forall a | 0 <= a < n ensures result[a] == after[a] {
      ToBytesXor(word, EngineMask(seed), 8, a % 8);
    }
  }

  /** With a constant seed the payload alternates between the mask and zero ... */
  lemma EngineHistory(seed: nat, blockSize: nat, k: nat)
    requires seed < WORD_SIZE
    ensures EnginePayload(seed, blockSize, 0) == Zeros(blockSize)
    ensures Effect(EnginePayload(seed, blockSize, k), ApplyEntropy(0, blockSize, seed)) == EnginePayload(seed, blockSize, k + 1)
  {
    hide Xor;
    hide Filled;
    hide Effect;
    FilledZero(blockSize);
    ApplyOnFilled(blockSize, 0, seed);
    ApplyOnFilled(blockSize, EngineMask(seed), seed);
    XorZero(EngineMask(seed));
    XorSelf(EngineMask(seed));
  }

  /** ... with the op number added to the seed it accumulates, as long as the seed fits a word
      or the block is too small to hold one. */
  lemma EmulatorHistory(seed: nat, blockSize: nat, k: nat)
    requires blockSize < 8 || seed + k < WORD_SIZE
    ensures EmulatorPayload(seed, blockSize, 0) == Zeros(blockSize)
    ensures Effect(EmulatorPayload(seed, blockSize, k), ApplyEntropy(0, blockSize, seed + k)) == EmulatorPayload(seed, blockSize, k + 1)
  {
    hide Xor;
    hide Filled;
    hide Effect;
    FilledZero(blockSize);
    if seed + k < WORD_SIZE {
      ApplyOnFilled(blockSize, EmulatorWord(seed, k), seed + k);
    } else {
      SmallBlock(blockSize, EmulatorWord(seed, k), seed + k);
      SmallBlock(blockSize, EmulatorWord(seed, k + 1), seed + k);
    }
  }

  lemma SmallBlock(n: nat, word: nat, seed: nat)
    requires n < 8
    ensures Filled(n, word) == Zeros(n)
    ensures Effect(Filled(n, word), ApplyEntropy(0, n, seed)) == Filled(n, word)
  {
    hide Xor;
    hide MaskByte;
  }

  // ----- either program -----

  /** The two programs that run a fleet: the engine keeps its seed, the emulator counts it up. */
  datatype Program = Engine | Emulator

  /** The seed of the op after `k` ops. */
  function OpSeed(program: Program, seed: nat, k: nat): nat {
    if program.Engine? then seed else seed + k
  }

  /** Does the mutator take that seed? A block without a whole word takes any. */
  predicate SeedFits(program: Program, seed: nat, blockSize: nat, k: nat) {
    blockSize < 8 || OpSeed(program, seed, k) < WORD_SIZE
  }

  /** The payload after op number `k` (from 1). */
  function OpPayload(program: Program, seed: nat, blockSize: nat, k: nat): (r: seq<byte>)
    ensures |r| == blockSize
  {
    if program.Engine? then EnginePayload(seed, blockSize, k) else EmulatorPayload(seed, blockSize, k)
  }

  lemma NoOps(program: Program, seed: nat, blockSize: nat)
    ensures OpPayload(program, seed, blockSize, 0) == Zeros(blockSize)
  {
    FilledZero(blockSize);
  }

  /** Every accepted op of either program turns one payload into the next. */
  lemma OpHistory(program: Program, seed: nat, blockSize: nat, k: nat)
    requires seed < WORD_SIZE && SeedFits(program, seed, blockSize, k)
    ensures Effect(OpPayload(program, seed, blockSize, k), ApplyEntropy(0, blockSize, OpSeed(program, seed, k)))
            == OpPayload(program, seed, blockSize, k + 1)
  {
    hide EnginePayload;
    hide EmulatorPayload;
    hide Effect;
    if program.Engine? {
      EngineHistory(seed, blockSize, k);
    } else {
      EmulatorHistory(seed, blockSize, k);
    }
  }

  // ----- payloads as words -----

  /** The `w`-th 64-bit word of a buffer, read back from memory. */
  function WordAt(data: seq<byte>, w: nat): nat
    requires 8 * w + 8 <= |data|
  {
    FromBytes(data[8 * w..8 * w + 8])
  }

  lemma FilledWord(n: nat, word: nat, w: nat)
    requires word < WORD_SIZE && 8 * w + 8 <= n
    ensures WordAt(Filled(n, word), w) == word
  {
    hide FromBytes;
    hide ToBytes;
    var bytes := Filled(n, word)[8 * w..8 * w + 8];
    assert bytes == ToBytes(word, 8) by {
      forall j | 0 <= j < 8 ensures bytes[j] == ToBytes(word, 8)[j] {
        assert (8 * w + j) % 8 == j;
      }
    }
    Pow2Word();
    ToBytesRoundTrip(word, 8);
  }

  /** What every whole word of the engine's payload holds after op `k`. */
  lemma EngineWord(seed: nat, blockSize: nat, k: nat, w: nat)
    requires seed < WORD_SIZE && 8 * w + 8 <= blockSize
    ensures WordAt(EnginePayload(seed, blockSize, k), w) == if k % 2 == 1 then EngineMask(seed) else 0
  {
    hide Xor;
    hide Filled;
    hide WordAt;
    XorWordBound(seed, APPLY_KEY);
    FilledZero(blockSize);
    FilledWord(blockSize, if k % 2 == 1 then EngineMask(seed) else 0, w);
  }

  lemma MasksEqualIff(s: nat, t: nat)
    ensures EngineMask(s) == EngineMask(t) <==> s == t
    ensures EngineMask(s) == 0 <==> s == APPLY_KEY
  {
    hide Xor;
    XorSelf(APPLY_KEY);
    if EngineMask(s) == EngineMask(t) {
      XorInjective(APPLY_KEY, s, t);
    }
    if EngineMask(s) == 0 {
      XorInjective(APPLY_KEY, s, APPLY_KEY);
    }
  }

  /** When the payloads of two ops, made from two seeds, agree in a whole word: two odd ops exactly
      for equal seeds, two even ones always, and an odd with an even one exactly when the odd op's
      seed is the key itself, whose mask is zero. */
  lemma PayloadsEqualIff(s: nat, t: nat, blockSize: nat, j: nat, k: nat, w: nat)
    requires s < WORD_SIZE && t < WORD_SIZE && 8 * w + 8 <= blockSize
    ensures WordAt(EnginePayload(s, blockSize, j), w) == WordAt(EnginePayload(t, blockSize, k), w)
            <==> if j % 2 == 1 && k % 2 == 1 then s == t
                 else (j % 2 == 1 ==> s == APPLY_KEY) && (k % 2 == 1 ==> t == APPLY_KEY)
  {
    hide EngineMask;
    hide WordAt;
    hide EnginePayload;
    EngineWord(s, blockSize, j, w);
    EngineWord(t, blockSize, k, w);
    MasksEqualIff(s, t);
    MasksEqualIff(t, s);
  }
}
