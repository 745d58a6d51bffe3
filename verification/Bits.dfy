/** Bitwise operations on Python's unbounded non-negative integers, and the
    little-endian bytes a 64-bit word has in memory. */
module Bits {
  import opened Division

  const WORD_SIZE: nat := 0x1_0000_0000_0000_0000

  type byte = n: nat | n < 256

  function Pow2(k: nat): (p: nat)
    ensures p > 0
  {
    if k == 0 then 1 else 2 * Pow2(k - 1)
  }

  /** Python's `a ^ b`. */
  function Xor(a: nat, b: nat): nat
    decreases a + b
  {
    if a == 0 && b == 0 then 0 else 2 * Xor(a / 2, b / 2) + (a + b) % 2
  }

  /** Python's `a >> k`. */
  function Shr(a: nat, k: nat): nat
    decreases a, k
  {
    if k == 0 then a else Shr(a / 2, k - 1)
  }

  /** The `k` low bits of `a`. */
  function Low(a: nat, k: nat): nat
    decreases a, k
  {
    if k == 0 then 0 else 2 * Low(a / 2, k - 1) + a % 2
  }

  /** Python's `a & 0xFFFFFFFFFFFFFFFF`. */
  function Mask64(a: nat): nat {
    Low(a, 64)
  }

  lemma XorStep(a: nat, b: nat)
    ensures Xor(a, b) / 2 == Xor(a / 2, b / 2)
    ensures Xor(a, b) % 2 == (a + b) % 2
  {
  }

  lemma XorHalf(a: nat, b: nat, parity: nat)
    requires parity == (a + b) % 2
    ensures Xor(a, b) == 2 * Xor(a / 2, b / 2) + parity
  {
  }

  lemma SameParity(x: nat, y: nat, z: nat)
    requires x % 2 == y % 2
    ensures (x + z) % 2 == (y + z) % 2
  {
  }

  lemma {:induction false} XorSelf(a: nat)
    ensures Xor(a, a) == 0
    decreases a
  {
    if a > 0 {
      XorSelf(a / 2);
    }
  }

  lemma {:induction false} XorZero(a: nat)
    ensures Xor(a, 0) == a && Xor(0, a) == a
  {
    if a > 0 {
      XorZero(a / 2);
    }
  }

  lemma {:induction false} XorCommutes(a: nat, b: nat)
    ensures Xor(a, b) == Xor(b, a)
    decreases a + b
  {
    if a + b > 0 {
      XorCommutes(a / 2, b / 2);
    }
  }

  lemma {:induction false} XorAssociates(a: nat, b: nat, c: nat)
    ensures Xor(Xor(a, b), c) == Xor(a, Xor(b, c))
    decreases a + b + c
  {
    if a + b + c > 0 {
      XorAssociates(a / 2, b / 2, c / 2);
      var ab, bc := Xor(a, b), Xor(b, c);
      XorStep(a, b);
      XorStep(b, c);
      SameParity(a + b, ab, c);
      SameParity(b + c, bc, a);
      XorHalf(ab, c, (a + b + c) % 2);
      XorHalf(a, bc, (a + b + c) % 2);
    }
  }

  /** `x ^ y ^ y == x`: what makes every mask its own inverse. */
  lemma XorCancels(x: nat, y: nat)
    ensures Xor(Xor(x, y), y) == x
  {
    XorAssociates(x, y, y);
    XorSelf(y);
    XorZero(x);
  }

  lemma XorInjective(m: nat, x: nat, y: nat)
    requires Xor(x, m) == Xor(y, m)
    ensures x == y
  {
    XorCancels(x, m);
    XorCancels(y, m);
  }

  lemma {:induction false} XorBound(a: nat, b: nat, k: nat)
    requires a < Pow2(k) && b < Pow2(k)
    ensures Xor(a, b) < Pow2(k)
  {
    if k > 0 {
      XorBound(a / 2, b / 2, k - 1);
    }
  }

  lemma Pow2Word()
    ensures Pow2(64) == WORD_SIZE
  {
    assert Pow2(8) == 256;
    Pow2Plus8(8);
    Pow2Plus8(16);
    Pow2Plus8(24);
    Pow2Plus8(32);
    Pow2Plus8(40);
    Pow2Plus8(48);
    Pow2Plus8(56);
  }

  lemma XorWordBound(a: nat, b: nat)
    requires a < WORD_SIZE && b < WORD_SIZE
    ensures Xor(a, b) < WORD_SIZE
  {
    Pow2Word();
    XorBound(a, b, 64);
  }

  lemma {:induction false} ShrXor(a: nat, b: nat, k: nat)
    ensures Shr(Xor(a, b), k) == Xor(Shr(a, k), Shr(b, k))
  {
    if k > 0 {
      assert Xor(a, b) / 2 == Xor(a / 2, b / 2);
      ShrXor(a / 2, b / 2, k - 1);
    }
  }

  lemma {:induction false} ShrShr(a: nat, j: nat, k: nat)
    ensures Shr(Shr(a, j), k) == Shr(a, j + k)
  {
    if j > 0 {
      ShrShr(a / 2, j - 1, k);
    }
  }

  lemma {:induction false} ShrVanishes(a: nat, k: nat)
    requires a < Pow2(k)
    ensures Shr(a, k) == 0
  {
    if k > 0 {
      ShrVanishes(a / 2, k - 1);
    }
  }

  lemma {:induction false} ShrBound(a: nat, k: nat)
    ensures Shr(a, k) <= a
  {
    if k > 0 {
      ShrBound(a / 2, k - 1);
    }
  }

  // ----- words and bytes -----

  function XorByte(a: byte, b: byte): byte {
    assert Pow2(8) == 256;
    XorBound(a, b, 8);
    Xor(a, b)
  }

  /** The `k` low bytes of `w`, least significant first: the memory image of a numpy uint64. */
  function ToBytes(w: nat, k: nat): (b: seq<byte>)
    ensures |b| == k
  {
    if k == 0 then [] else [w % 256] + ToBytes(w / 256, k - 1)
  }

  function FromBytes(b: seq<byte>): nat {
    if b == [] then 0 else b[0] + 256 * FromBytes(b[1..])
  }

  /** Byte `j` of the 8-byte memory image of `w`. */
  function MaskByte(w: nat, j: nat): byte
    requires j < 8
  {
    ToBytes(w, 8)[j]
  }

  lemma {:induction false} FromBytesToBytes(b: seq<byte>)
    ensures ToBytes(FromBytes(b), |b|) == b
  {
    if b != [] {
      FromBytesToBytes(b[1..]);
      DivMod256(FromBytes(b), b[0], FromBytes(b[1..]));
    }
  }

  lemma {:induction false} ToBytesRoundTrip(w: nat, k: nat)
    requires w < Pow2(8 * k)
    ensures FromBytes(ToBytes(w, k)) == w
  {
    if k > 0 {
      Pow2Byte(k);
      ToBytesRoundTrip(w / 256, k - 1);
      assert ToBytes(w, k)[1..] == ToBytes(w / 256, k - 1);
    }
  }

  lemma Pow2Byte(k: nat)
    requires k > 0
    ensures Pow2(8 * k) == 256 * Pow2(8 * (k - 1))
  {
    hide Pow2;
    Pow2Plus8(8 * (k - 1));
  }

  lemma Pow2Plus8(e: nat)
    ensures Pow2(e + 8) == 256 * Pow2(e)
  {
    assert Pow2(e + 2) == 4 * Pow2(e);
    assert Pow2(e + 4) == 4 * Pow2(e + 2);
    assert Pow2(e + 6) == 4 * Pow2(e + 4);
    assert Pow2(e + 8) == 4 * Pow2(e + 6);
  }

  lemma XorCons(x: nat, p: nat, y: nat, q: nat)
    requires p < 2 && q < 2
    ensures Xor(2 * x + p, 2 * y + q) == 2 * Xor(x, y) + Bit(p + q)
  {
    var a, b := 2 * x + p, 2 * y + q;
    assert a / 2 == x && b / 2 == y && (a + b) % 2 == (p + q) % 2;
    XorHalf(a, b, (p + q) % 2);
  }

  lemma SumParity(a: nat, b: nat)
    ensures (a % 2 + b % 2) % 2 == (a + b) % 2
  {
  }

  function Half(a: nat): nat {
    a / 2
  }

  function Bit(a: nat): nat {
    a % 2
  }

  lemma LowStep(a: nat, k: nat)
    requires k > 0
    ensures Low(a, k) == 2 * Low(Half(a), k - 1) + Bit(a) && Bit(a) < 2
  {
  }

  lemma XorParts(a: nat, b: nat)
    ensures Half(Xor(a, b)) == Xor(Half(a), Half(b))
    ensures Bit(Xor(a, b)) == Bit(Bit(a) + Bit(b))
  {
    hide Xor;
    XorStep(a, b);
    SumParity(a, b);
  }

  lemma LowNothing(a: nat)
    ensures Low(a, 0) == 0
  {
  }

  lemma {:induction false} LowXor(a: nat, b: nat, k: nat)
    ensures Low(Xor(a, b), k) == Xor(Low(a, k), Low(b, k))
    decreases k
  {
    hide *;
    if k == 0 {
      LowNothing(a);
      LowNothing(b);
      LowNothing(Xor(a, b));
      XorZero(0);
    } else {
      LowXor(Half(a), Half(b), k - 1);
      LowStep(a, k);
      LowStep(b, k);
      LowStep(Xor(a, b), k);
      XorParts(a, b);
      XorCons(Low(Half(a), k - 1), Bit(a), Low(Half(b), k - 1), Bit(b));
    }
  }

  lemma Doubled(p: nat, s: nat)
    ensures (2 * p) * s == 2 * (p * s)
  {
  }

  lemma {:induction false} LowPlusShr(a: nat, k: nat)
    ensures Low(a, k) < Pow2(k) && a == Low(a, k) + Pow2(k) * Shr(a, k)
  {
    if k > 0 {
      LowPlusShr(a / 2, k - 1);
      Doubled(Pow2(k - 1), Shr(a / 2, k - 1));
    }
  }

  lemma Mask64IsMod(a: nat)
    ensures Mask64(a) == a % WORD_SIZE
  {
    hide Low;
    hide Shr;
    hide Pow2;
    Pow2Word();
    LowPlusShr(a, 64);
    var low, high := Low(a, 64), Shr(a, 64);
    assert a == low + WORD_SIZE * high;
  }

  lemma ByteSplit(a: nat)
    ensures Low(a, 8) == a % 256 && Shr(a, 8) == a / 256
  {
    hide Low;
    hide Shr;
    assert Pow2(8) == 256;
    LowPlusShr(a, 8);
    DivMod256(a, Low(a, 8), Shr(a, 8));
  }

  lemma DivMod256(a: nat, low: nat, high: nat)
    requires low < 256 && a == low + 256 * high
    ensures a % 256 == low && a / 256 == high
  {
  }

  /** A right shift is a division by a power of two. */
  lemma ShrIsDivision(a: nat, k: nat)
    ensures Shr(a, k) == a / Pow2(k)
  {
    hide Low;
    hide Shr;
    hide Pow2;
    LowPlusShr(a, k);
    QuotientIff(a, Shr(a, k), Pow2(k));
    assert Pow2(k) * Shr(a, k) == Shr(a, k) * Pow2(k);
  }

  /** Bit `k` of `a ^ b` is set when exactly one of the two bits is. */
  lemma {:induction false} XorIsBitwise(a: nat, b: nat, k: nat)
    ensures Xor(a, b) / Pow2(k) % 2 == 1 <==> (a / Pow2(k) % 2 == 1) != (b / Pow2(k) % 2 == 1)
  {
    hide *;
    ShrIsDivision(a, k);
    ShrIsDivision(b, k);
    ShrIsDivision(Xor(a, b), k);
    ShrXor(a, b, k);
    OddXor(Shr(a, k), Shr(b, k));
  }

  lemma OddXor(a: nat, b: nat)
    ensures Xor(a, b) % 2 == 1 <==> (a % 2 == 1) != (b % 2 == 1)
  {
    hide Xor;
    XorStep(a, b);
    SumParity(a, b);
  }

  /** Byte `j` of the memory image is the `j`-th byte of the number, least significant first. */
  lemma {:induction false} ByteOfWord(w: nat, k: nat, j: nat)
    requires j < k
    ensures ToBytes(w, k)[j] == w / Pow2(8 * j) % 256
  {
    if j == 0 {
      assert Pow2(0) == 1;
    } else {
      hide Shr;
      hide Pow2;
      ByteOfWord(w / 256, k - 1, j - 1);
      ByteSplit(w);
      ShrShr(w, 8, 8 * (j - 1));
      ShrIsDivision(w, 8 * j);
      ShrIsDivision(w / 256, 8 * (j - 1));
    }
  }

  /** A word-wide XOR is a byte-by-byte XOR in memory. */
  lemma {:induction false} ToBytesXor(v: nat, w: nat, k: nat, j: nat)
    requires j < k
    ensures ToBytes(Xor(v, w), k)[j] == XorByte(ToBytes(v, k)[j], ToBytes(w, k)[j])
  {
    ByteSplit(v);
    ByteSplit(w);
    ByteSplit(Xor(v, w));
    LowXor(v, w, 8);
    ShrXor(v, w, 8);
    if j > 0 {
      ToBytesXor(v / 256, w / 256, k - 1, j - 1);
    }
  }
}
