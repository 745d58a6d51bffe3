/** Facts about quotients and remainders by a variable divisor. */
module Division {
  lemma MultipleGap(a: nat, b: nat, d: nat)
    ensures a < b ==> a * d + d <= b * d
    ensures b < a ==> b * d + d <= a * d
  {
    if a < b {
      assert (a + 1) * d <= b * d;
    } else if b < a {
      assert (b + 1) * d <= a * d;
    }
  }

  lemma QuotientIff(a: nat, q: nat, d: nat)
    requires d > 0
    ensures a / d == q <==> q * d <= a < q * d + d
  {
    assert a == (a / d) * d + a % d;
    MultipleGap(a / d, q, d);
  }

  lemma QuotientAndRemainder(a: nat, d: nat)
    requires d > 0
    ensures a == (a / d) * d + a % d && a % d < d
  {
  }

  lemma NextMultiple(k: nat, d: nat)
    ensures (k + 1) * d == k * d + d
  {
  }

  lemma DivMod(q: nat, r: nat, d: nat)
    requires r < d
    ensures (q * d + r) / d == q && (q * d + r) % d == r
  {
    var a := q * d + r;
    QuotientIff(a, q, d);
    assert a == (a / d) * d + a % d;
  }

  lemma BelowMultiple(a: nat, k: nat, d: nat)
    requires d > 0
    ensures a < k * d <==> a / d < k
  {
    QuotientIff(a, a / d, d);
    MultipleGap(a / d, k, d);
  }

  lemma DistinctMultiples(x: nat, y: nat, d: nat)
    requires d > 0 && x % d == 0 && y % d == 0 && x != y
    ensures x + d <= y || y + d <= x
  {
    QuotientIff(x, x / d, d);
    QuotientIff(y, y / d, d);
    MultipleGap(x / d, y / d, d);
    assert x == (x / d) * d && y == (y / d) * d;
  }

  lemma Positive(p: nat, q: int)
    requires p * q > 0
    ensures q > 0
  {
  }

  lemma FactorBetween(p: nat, q: int, k: nat)
    requires 0 < p * q < p * k
    ensures 0 < q < k
  {
    Positive(p, q);
    BelowMultiple(q * p, k, p);
    DivMod(q, 0, p);
  }
}
