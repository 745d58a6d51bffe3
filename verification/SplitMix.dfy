/** The SplitMix64 finaliser of the shard generator and its explicit inverse. */
module SplitMix {
  import opened Bits

  /** The 64-bit operations the hash is a straight line of. `inverse` undoes `factor` modulo 2^64. */
  datatype Operation = Add(addend: nat) | XorShift(shift: nat) | Multiply(factor: nat, inverse: nat)

  const OPERATIONS: seq<Operation> := [
    Add(0x9E3779B97F4A7C15),
    XorShift(30), Multiply(0xBF58476D1CE4E5B9, 0x96DE1B173F119089),
    XorShift(27), Multiply(0x94D049BB133111EB, 0x319642B2D24D8EC3),
    XorShift(31)
  ]

  function ShiftedXor(z: nat, s: nat): nat {
    Xor(z, Shr(z, s))
  }

  function Apply(z: nat, op: Operation): nat {
    match op
    case Add(c) => (z + c) % WORD_SIZE
    case XorShift(s) => ShiftedXor(z, s)
    case Multiply(m, _) => z * m % WORD_SIZE
  }

  function ApplyAll(z: nat, ops: seq<Operation>): nat
    decreases |ops|, z
  {
    if ops == [] then z else ApplyAll(Apply(z, ops[0]), ops[1..])
  }

  function SplitMix64(state: nat): nat {
    ApplyAll(state, OPERATIONS) % WORD_SIZE
  }

  // ----- the inverse -----

  function UnXorShift(y: nat, s: nat): nat {
    Xor(Xor(y, Shr(y, s)), Shr(y, 2 * s))
  }

  function Undo(y: nat, op: Operation): nat {
    match op
    case Add(c) => (y - c) % WORD_SIZE
    case XorShift(s) => UnXorShift(y, s)
    case Multiply(_, inverse) => y * inverse % WORD_SIZE
  }

  function UndoAll(y: nat, ops: seq<Operation>): nat
    decreases |ops|, y
  {
    if ops == [] then y else Undo(UndoAll(y, ops[1..]), ops[0])
  }

  function UnSplitMix64(hash: nat): nat {
    UndoAll(hash, OPERATIONS)
  }

  ghost predicate Invertible(op: Operation) {
    match op
    case Add(_) => true
    case XorShift(s) => 3 * s >= 64
    case Multiply(m, inverse) => m * inverse % WORD_SIZE == 1
  }

  lemma ShiftedXorBound(z: nat, s: nat)
    requires z < WORD_SIZE
    ensures ShiftedXor(z, s) < WORD_SIZE && UnXorShift(z, s) < WORD_SIZE
  {
    hide Xor;
    hide Shr;
    ShrBound(z, s);
    ShrBound(z, 2 * s);
    XorWordBound(z, Shr(z, s));
    XorWordBound(Xor(z, Shr(z, s)), Shr(z, 2 * s));
  }

  /** (a ^ b) ^ (b ^ c) ^ c collapses to a. */
  lemma Telescope(a: nat, b: nat, c: nat)
    ensures Xor(Xor(Xor(a, b), Xor(b, c)), c) == a
  {
    hide Xor;
    XorAssociates(Xor(a, b), Xor(b, c), c);
    XorCancels(b, c);
    XorCancels(a, b);
  }

  lemma ShiftsOfXorShift(z: nat, s: nat)
    requires z < WORD_SIZE && 3 * s >= 64
    ensures Shr(ShiftedXor(z, s), s) == Xor(Shr(z, s), Shr(z, 2 * s))
    ensures Shr(ShiftedXor(z, s), 2 * s) == Shr(z, 2 * s)
  {
    hide Xor;
    hide Shr;
    ShrXor(z, Shr(z, s), s);
    ShrShr(z, s, s);
    ShrXor(z, Shr(z, s), 2 * s);
    ShrShr(z, s, 2 * s);
    ShrGone(z, 3 * s);
    XorZero(Shr(z, 2 * s));
  }

  lemma ShrGone(z: nat, k: nat)
    requires z < WORD_SIZE && k >= 64
    ensures Shr(z, k) == 0
  {
    hide Shr;
    hide Pow2;
    Pow2Word();
    ShrVanishes(z, 64);
    ShrShr(z, 64, k - 64);
    ShrBound(0, k - 64);
  }

  lemma UnXorShiftXorShift(z: nat, s: nat)
    requires z < WORD_SIZE && 3 * s >= 64
    ensures UnXorShift(ShiftedXor(z, s), s) == z
  {
    hide Xor;
    hide Shr;
    ShiftsOfXorShift(z, s);
    Telescope(z, Shr(z, s), Shr(z, 2 * s));
  }

  lemma XorShiftUnXorShift(y: nat, s: nat)
    requires y < WORD_SIZE && 3 * s >= 64
    ensures ShiftedXor(UnXorShift(y, s), s) == y
  {
    hide Xor;
    hide Shr;
    var a, b, c := y, Shr(y, s), Shr(y, 2 * s);
    ShrXor(Xor(a, b), c, s);
    ShrXor(a, b, s);
    ShrShr(y, s, s);
    ShrShr(y, 2 * s, s);
    ShrGone(y, 3 * s);
    XorZero(Xor(b, c));
    XorAssociates(Xor(a, b), c, Xor(b, c));
    XorCommutes(c, Xor(b, c));
    XorAssociates(Xor(a, b), Xor(b, c), c);
    Telescope(a, b, c);
  }

  lemma MultiplyInverse(x: nat, m: nat, inverse: nat)
    requires x < WORD_SIZE && m * inverse % WORD_SIZE == 1
    ensures (x * m % WORD_SIZE) * inverse % WORD_SIZE == x
  {
    var low, q, wraps := x * m % WORD_SIZE, x * m / WORD_SIZE, m * inverse / WORD_SIZE;
    calc {
      low * inverse;
      (x * m - WORD_SIZE * q) * inverse;
      x * (m * inverse) - WORD_SIZE * (q * inverse);
      x * (1 + WORD_SIZE * wraps) - WORD_SIZE * (q * inverse);
      x + WORD_SIZE * (x * wraps - q * inverse);
    }
    Remainder(low * inverse, x * wraps - q * inverse, x);
  }

  lemma Remainder(n: int, q: int, r: nat)
    requires r < WORD_SIZE && n == r + WORD_SIZE * q
    ensures n % WORD_SIZE == r
  {
  }

  lemma AddInverse(z: nat, c: nat)
    requires z < WORD_SIZE
    ensures ((z + c) % WORD_SIZE - c) % WORD_SIZE == z
    ensures ((z - c) % WORD_SIZE + c) % WORD_SIZE == z
  {
    Remainder((z + c) % WORD_SIZE - c, -((z + c) / WORD_SIZE), z);
    Remainder((z - c) % WORD_SIZE + c, -((z - c) / WORD_SIZE), z);
  }

  lemma OperationInverse(z: nat, op: Operation)
    requires z < WORD_SIZE && Invertible(op)
    ensures Apply(z, op) < WORD_SIZE && Undo(z, op) < WORD_SIZE
    ensures Undo(Apply(z, op), op) == z && Apply(Undo(z, op), op) == z
  {
    hide Xor;
    hide Shr;
    match op
    case Add(c) =>
      AddInverse(z, c);
    case XorShift(s) =>
      ShiftedXorBound(z, s);
      UnXorShiftXorShift(z, s);
      XorShiftUnXorShift(z, s);
    case Multiply(m, inverse) =>
      MultiplyInverse(z, m, inverse);
      assert inverse * m == m * inverse;
      MultiplyInverse(z, inverse, m);
  }

  lemma {:induction false} ApplyAllInverse(z: nat, ops: seq<Operation>)
    requires z < WORD_SIZE && forall k :: 0 <= k < |ops| ==> Invertible(ops[k])
    ensures ApplyAll(z, ops) < WORD_SIZE && UndoAll(z, ops) < WORD_SIZE
    ensures UndoAll(ApplyAll(z, ops), ops) == z && ApplyAll(UndoAll(z, ops), ops) == z
    decreases |ops|
  {
    hide Apply;
    hide Undo;
    if ops != [] {
      OperationInverse(z, ops[0]);
      ApplyAllInverse(Apply(z, ops[0]), ops[1..]);
      ApplyAllInverse(z, ops[1..]);
      OperationInverse(UndoAll(z, ops[1..]), ops[0]);
    }
  }

  lemma OperationsInvertible()
    ensures forall k :: 0 <= k < |OPERATIONS| ==> Invertible(OPERATIONS[k])
  {
  }

  /** The generator's hash loses nothing: an explicit inverse recovers every 64-bit state ... */
  lemma SplitMix64Injective(state: nat)
    requires state < WORD_SIZE
    ensures SplitMix64(state) < WORD_SIZE
    ensures UnSplitMix64(SplitMix64(state)) == state
  {
    hide ApplyAll;
    hide UndoAll;
    OperationsInvertible();
    ApplyAllInverse(state, OPERATIONS);
  }

  /** ... and every 64-bit value is the hash of exactly the state the inverse names. */
  lemma SplitMix64Surjective(hash: nat)
    requires hash < WORD_SIZE
    ensures UnSplitMix64(hash) < WORD_SIZE
    ensures SplitMix64(UnSplitMix64(hash)) == hash
  {
    hide ApplyAll;
    hide UndoAll;
    OperationsInvertible();
    ApplyAllInverse(hash, OPERATIONS);
  }

  /** Seed of the core with global number `index`. */
  function WorkerSeed(globalSeed: nat, index: nat): nat {
    SplitMix64(Mask64(Xor(globalSeed, index)))
  }

  lemma MaskedState(globalSeed: nat, index: nat)
    ensures Mask64(Xor(globalSeed, index)) == Xor(globalSeed % WORD_SIZE, index % WORD_SIZE) < WORD_SIZE
  {
    LowXor(globalSeed, index, 64);
    Mask64IsMod(globalSeed);
    Mask64IsMod(index);
    Mask64IsMod(Xor(globalSeed, index));
  }

  /** The hash, written out. */
  lemma SplitMix64IsTheHash(state: nat)
    requires state < WORD_SIZE
    ensures var z1 := (state + 0x9E3779B97F4A7C15) % WORD_SIZE;
            var z2 := Xor(z1, Shr(z1, 30)) * 0xBF58476D1CE4E5B9 % WORD_SIZE;
            var z3 := Xor(z2, Shr(z2, 27)) * 0x94D049BB133111EB % WORD_SIZE;
            SplitMix64(state) == Xor(z3, Shr(z3, 31)) % WORD_SIZE
  {
    hide Xor;
    hide Shr;
    var z1 := Apply(state, OPERATIONS[0]);
    var z2 := Apply(Apply(z1, OPERATIONS[1]), OPERATIONS[2]);
    var z3 := Apply(Apply(z2, OPERATIONS[3]), OPERATIONS[4]);
    ApplyFirst(state, OPERATIONS);
    ApplyFirst(z1, OPERATIONS[1..]);
    ApplyFirst(Apply(z1, OPERATIONS[1]), OPERATIONS[2..]);
    ApplyFirst(z2, OPERATIONS[3..]);
    ApplyFirst(Apply(z2, OPERATIONS[3]), OPERATIONS[4..]);
    ApplyFirst(z3, OPERATIONS[5..]);
  }

  lemma ApplyFirst(z: nat, ops: seq<Operation>)
    requires ops != []
    ensures ApplyAll(z, ops) == ApplyAll(Apply(z, ops[0]), ops[1..])
    ensures |ops| == 1 ==> ApplyAll(z, ops) == Apply(z, ops[0])
  {
    hide Apply;
  }

  /** The seed of a core is the hash of run seed XOR core number, cut to 64 bits. */
  lemma WorkerSeedIsTheHash(globalSeed: nat, index: nat)
    ensures WorkerSeed(globalSeed, index) == SplitMix64(Xor(globalSeed, index) % 0x1_0000_0000_0000_0000)
  {
    hide SplitMix64;
    hide Xor;
    Mask64IsMod(Xor(globalSeed, index));
  }

  /** Two cores of one run share a seed exactly when their numbers agree modulo 2^64. */
  lemma SeedsCollideIff(globalSeed: nat, i: nat, j: nat)
    ensures WorkerSeed(globalSeed, i) < WORD_SIZE
    ensures WorkerSeed(globalSeed, i) == WorkerSeed(globalSeed, j) <==> i % WORD_SIZE == j % WORD_SIZE
  {
    hide SplitMix64;
    hide UnSplitMix64;
    MaskedState(globalSeed, i);
    MaskedState(globalSeed, j);
    SplitMix64Injective(Mask64(Xor(globalSeed, i)));
    SplitMix64Injective(Mask64(Xor(globalSeed, j)));
    var g, a, b := globalSeed % WORD_SIZE, i % WORD_SIZE, j % WORD_SIZE;
    if Xor(g, a) == Xor(g, b) {
      XorCommutes(g, a);
      XorCommutes(g, b);
      XorInjective(g, a, b);
    }
  }

  /** The seed of one core tells the run seed, modulo 2^64. */
  lemma RunSeedsCollideIff(g: nat, h: nat, i: nat)
    ensures WorkerSeed(g, i) == WorkerSeed(h, i) <==> g % WORD_SIZE == h % WORD_SIZE
  {
    hide SplitMix64;
    hide UnSplitMix64;
    MaskedState(g, i);
    MaskedState(h, i);
    SplitMix64Injective(Mask64(Xor(g, i)));
    SplitMix64Injective(Mask64(Xor(h, i)));
    if Xor(g % WORD_SIZE, i % WORD_SIZE) == Xor(h % WORD_SIZE, i % WORD_SIZE) {
      XorInjective(i % WORD_SIZE, g % WORD_SIZE, h % WORD_SIZE);
    }
  }
}
