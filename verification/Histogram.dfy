/** The 64-bucket logarithmic histogram: what its percentile scan says about the samples. */
module Histogram {
  import opened Bits
  import opened Sequences

  const BUCKETS: nat := 64

  /** Python's `int.bit_length`. */
  function BitLength(n: nat): nat {
    if n == 0 then 0 else 1 + BitLength(n / 2)
  }

  function BucketOf(ns: nat): (b: nat)
    ensures b < BUCKETS
  {
    if BitLength(ns) >= 64 then 63 else BitLength(ns)
  }

  /** How many samples fall into bucket `b`. */
  function Count(samples: seq<nat>, b: nat): nat {
    if samples == [] then 0
    else Count(samples[..|samples| - 1], b) + (if BucketOf(samples[|samples| - 1]) == b then 1 else 0)
  }

  function Counts(samples: seq<nat>): (h: seq<nat>)
    ensures |h| == BUCKETS
  {
    seq(BUCKETS, b requires 0 <= b < BUCKETS => Count(samples, b))
  }

  /** Sum of the first `b` buckets. */
  function Accumulated(h: seq<nat>, b: nat): nat
    requires b <= |h|
  {
    if b == 0 then 0 else Accumulated(h, b - 1) + h[b - 1]
  }

  /** The first bucket from `b` on at which the running total reaches `target`. */
  function FirstReaching(h: seq<nat>, target: nat, b: nat): (r: nat)
    requires b <= |h|
    ensures b <= r <= |h|
    ensures r < |h| ==> Accumulated(h, r + 1) >= target
    ensures forall c :: b < c <= r ==> Accumulated(h, c) < target
    decreases |h| - b
  {
    if b == |h| || Accumulated(h, b + 1) >= target then b else FirstReaching(h, target, b + 1)
  }

  function Target(ops: nat, p: real): (k: nat)
    ensures k <= ops
  {
    Portion(ops, Clamp(p))
  }

  /** The bucket the percentile scan stops at; 64 would mean that it runs past the last bucket. */
  function PercentileBucket(samples: seq<nat>, p: real): nat {
    FirstReaching(Counts(samples), Target(|samples|, p), 0)
  }

  /** The reported percentile in nanoseconds. */
  function PercentileNs(samples: seq<nat>, p: real): nat {
    if samples == [] then 0 else Pow2(PercentileBucket(samples, p))
  }

  // ----- buckets and powers of two -----

  lemma {:induction false} BitLengthBounds(n: nat)
    ensures n < Pow2(BitLength(n))
    ensures n > 0 ==> Pow2(BitLength(n) - 1) <= n
  {
    if n > 0 {
      BitLengthBounds(n / 2);
    }
  }

  lemma {:induction false} BitLengthMonotone(m: nat, n: nat)
    requires m <= n
    ensures BitLength(m) <= BitLength(n)
  {
    if m > 0 {
      BitLengthMonotone(m / 2, n / 2);
    }
  }

  lemma {:induction false} Pow2Monotone(j: nat, k: nat)
    requires j <= k
    ensures Pow2(j) <= Pow2(k)
  {
    if j < k {
      Pow2Monotone(j, k - 1);
    }
  }

  /** The reported bound 2^b of a sample's bucket is at most twice the sample, and lies above
      the sample exactly when the sample is below 2^63, i.e. not saturated into the top bucket. */
  lemma BucketBounds(ns: nat)
    ensures ns > 0 ==> Pow2(BucketOf(ns)) <= 2 * ns
    ensures ns == 0 <==> BucketOf(ns) == 0
    ensures ns < Pow2(BucketOf(ns)) <==> ns < Pow2(63)
  {
    hide Pow2;
    BitLengthBounds(ns);
    var b := BitLength(ns);
    if b == 0 {
      Pow2Zero();
      Pow2Monotone(0, 63);
    } else if b < 64 {
      Pow2Double(b);
      Pow2Monotone(b, 63);
    } else {
      Pow2Monotone(63, b - 1);
    }
  }

  lemma Pow2Zero()
    ensures Pow2(0) == 1
  {
  }

  lemma Pow2Double(b: nat)
    requires b > 0
    ensures Pow2(b) == 2 * Pow2(b - 1)
  {
  }

  // ----- the scan finds the order statistic -----

  /** How many samples lie in the first `b` buckets. */
  function Below(samples: seq<nat>, b: nat): (n: nat)
    ensures n <= |samples|
  {
    if samples == [] then 0
    else Below(samples[..|samples| - 1], b) + (if BucketOf(samples[|samples| - 1]) < b then 1 else 0)
  }

  lemma {:induction false} AccumulatedCounts(samples: seq<nat>, b: nat)
    requires b <= BUCKETS
    ensures Accumulated(Counts(samples), b) == Below(samples, b)
  {
    if b == 0 {
      BelowZero(samples);
    } else {
      AccumulatedCounts(samples, b - 1);
      BelowStep(samples, b - 1);
    }
  }

  lemma {:induction false} BelowZero(samples: seq<nat>)
    ensures Below(samples, 0) == 0
  {
    if samples != [] {
      BelowZero(samples[..|samples| - 1]);
    }
  }

  lemma {:induction false} BelowStep(samples: seq<nat>, b: nat)
    ensures Below(samples, b + 1) == Below(samples, b) + Count(samples, b)
  {
    hide BucketOf;
    if samples != [] {
      BelowStep(samples[..|samples| - 1], b);
    }
  }

  lemma {:induction false} AllBelow(samples: seq<nat>)
    ensures Below(samples, BUCKETS) == |samples|
  {
    hide BitLength;
    if samples != [] {
      AllBelow(samples[..|samples| - 1]);
    }
  }

  lemma {:induction false} BelowWithout(samples: seq<nat>, i: nat, b: nat)
    requires i < |samples|
    ensures Below(samples, b) == Below(Without(samples, i), b) + (if BucketOf(samples[i]) < b then 1 else 0)
  {
    hide BucketOf;
    var n := |samples| - 1;
    if i == n {
      assert Without(samples, i) == samples[..n];
    } else {
      BelowWithout(samples[..n], i, b);
      assert Without(samples, i)[..n - 1] == Without(samples[..n], i);
    }
  }

  lemma {:induction false} BelowPermutation(xs: seq<nat>, ys: seq<nat>, b: nat)
    requires multiset(xs) == multiset(ys)
    ensures Below(xs, b) == Below(ys, b)
  {
    hide BucketOf;
    hide Without;
    if xs == [] {
      assert |multiset(xs)| == |multiset(ys)|;
    } else {
      var j := RemoveLast(xs, ys);
      BelowPermutation(xs[..|xs| - 1], Without(ys, j), b);
      BelowWithout(ys, j, b);
    }
  }

  ghost predicate Sorted(s: seq<nat>) {
    forall i, j :: 0 <= i < j < |s| ==> s[i] <= s[j]
  }

  /** In sorted order the samples of the first `b` buckets come first. */
  lemma {:induction false} BelowSorted(sorted: seq<nat>, b: nat, i: nat)
    requires Sorted(sorted) && i < |sorted|
    ensures BucketOf(sorted[i]) < b <==> i < Below(sorted, b)
  {
    hide BucketOf;
    var n := |sorted| - 1;
    BucketMonotone(sorted[i], sorted[n]);
    if n > 0 {
      BucketMonotone(sorted[n - 1], sorted[n]);
      BelowSorted(sorted[..n], b, if i < n then i else n - 1);
      BelowSorted(sorted[..n], b, n - 1);
    }
  }

  lemma BucketMonotone(x: nat, y: nat)
    ensures x <= y ==> BucketOf(x) <= BucketOf(y)
  {
    if x <= y {
      BitLengthMonotone(x, y);
    }
  }

  /** The scan always stops inside the table: the fall-through to the maximum is never taken. */
  lemma ScanStops(samples: seq<nat>, target: nat)
    requires target <= |samples|
    ensures FirstReaching(Counts(samples), target, 0) < BUCKETS
  {
    hide Counts;
    AllBelow(samples);
    AccumulatedCounts(samples, BUCKETS);
  }

  /** The scan for the k-th sample stops at the bucket of the k-th smallest sample. */
  lemma ScanIsOrderStatistic(samples: seq<nat>, sorted: seq<nat>, k: nat)
    requires multiset(sorted) == multiset(samples) && Sorted(sorted)
    requires 1 <= k <= |samples|
    ensures |sorted| == |samples|
    ensures FirstReaching(Counts(samples), k, 0) == BucketOf(sorted[k - 1])
  {
    hide Counts;
    hide BucketOf;
    assert |multiset(sorted)| == |multiset(samples)|;
    ScanStops(samples, k);
    var r := FirstReaching(Counts(samples), k, 0);
    AccumulatedCounts(samples, r + 1);
    BelowPermutation(samples, sorted, r + 1);
    BelowSorted(sorted, r + 1, k - 1);
    AccumulatedCounts(samples, r);
    BelowPermutation(samples, sorted, r);
    BelowSorted(sorted, r, k - 1);
  }

  /** `k` is n*p rounded down, with p cut to [0, 1]. */
  ghost predicate IsRank(k: nat, n: nat, p: real) {
    && (p < 0.0 ==> k == 0)
    && (p > 1.0 ==> k == n)
    && (0.0 <= p <= 1.0 ==> k as real <= n as real * p < k as real + 1.0)
  }

  /** The rank the scan looks for is n*p rounded down, and no other number is. */
  lemma RankIsFloor(k: nat, n: nat, p: real)
    ensures IsRank(k, n, p) <==> k == Target(n, p)
  {
    var t := Target(n, p);
    if p < 0.0 {
      assert n as real * 0.0 == 0.0;
    } else if p > 1.0 {
      assert n as real * 1.0 == n as real;
    } else if IsRank(k, n, p) {
      assert k as real < (t + 1) as real && t as real < (k + 1) as real;
    }
  }

  /** The reported percentile is the bucket bound of the floor(n*p)-th smallest sample s: never more
      than 2s, and above s exactly when s is below 2^63. With floor(n*p) = 0 it is 1 ns. */
  lemma PercentileIsOrderStatistic(samples: seq<nat>, sorted: seq<nat>, p: real, k: nat)
    requires samples != [] && multiset(sorted) == multiset(samples) && Sorted(sorted)
    requires IsRank(k, |samples|, p)
    ensures |sorted| == |samples| && PercentileBucket(samples, p) < BUCKETS && k <= |samples|
    ensures if k == 0 then PercentileNs(samples, p) == 1
            else
              var s, r := sorted[k - 1], PercentileNs(samples, p);
              && PercentileBucket(samples, p) == BucketOf(s)
              && (s < r <==> s < Pow2(63))
              && (if s == 0 then r == 1 else r <= 2 * s)
  {
    hide BucketOf;
    hide Counts;
    assert |multiset(sorted)| == |multiset(samples)|;
    RankIsFloor(k, |samples|, p);
    ScanStops(samples, k);
    if k > 0 {
      ScanIsOrderStatistic(samples, sorted, k);
      BucketBounds(sorted[k - 1]);
    }
  }

  // ----- monotonicity and merging -----

  lemma {:induction false} AccumulatedMonotone(h: seq<nat>, b: nat, c: nat)
    requires b <= c <= |h|
    ensures Accumulated(h, b) <= Accumulated(h, c)
  {
    if b < c {
      AccumulatedMonotone(h, b, c - 1);
    }
  }

  lemma ScanMonotone(h: seq<nat>, j: nat, k: nat)
    requires j <= k
    ensures FirstReaching(h, j, 0) <= FirstReaching(h, k, 0)
  {
  }

  /** A larger p never reports a smaller latency. */
  lemma PercentileMonotone(samples: seq<nat>, p: real, q: real)
    requires p <= q
    ensures PercentileNs(samples, p) <= PercentileNs(samples, q)
  {
    hide Counts;
    PortionMonotone(|samples|, Clamp(p), Clamp(q));
    ScanMonotone(Counts(samples), Target(|samples|, p), Target(|samples|, q));
    Pow2Monotone(PercentileBucket(samples, p), PercentileBucket(samples, q));
  }

  /** The four percentiles of a report are in order. */
  lemma PercentilesOrdered(samples: seq<nat>)
    ensures PercentileNs(samples, 0.50) <= PercentileNs(samples, 0.90)
         <= PercentileNs(samples, 0.99) <= PercentileNs(samples, 0.999)
  {
    hide PercentileNs;
    PercentileMonotone(samples, 0.50, 0.90);
    PercentileMonotone(samples, 0.90, 0.99);
    PercentileMonotone(samples, 0.99, 0.999);
  }

  lemma PortionMonotone(n: nat, p: real, q: real)
    requires 0.0 <= p <= q <= 1.0
    ensures Portion(n, p) <= Portion(n, q)
  {
    assert n as real * p <= n as real * q;
    assert Portion(n, p) as real < (Portion(n, q) + 1) as real;
  }

  lemma {:induction false} CountConcat(xs: seq<nat>, ys: seq<nat>, b: nat)
    ensures Count(xs + ys, b) == Count(xs, b) + Count(ys, b)
  {
    hide BucketOf;
    if ys == [] {
      assert xs + ys == xs;
    } else {
      var n := |ys| - 1;
      assert (xs + ys)[..|xs + ys| - 1] == xs + ys[..n];
      CountConcat(xs, ys[..n], b);
    }
  }

  /** A collector that recorded both histories holds the pointwise sum of their buckets. */
  lemma CountsConcat(xs: seq<nat>, ys: seq<nat>)
    ensures forall b :: 0 <= b < BUCKETS ==> Counts(xs + ys)[b] == Counts(xs)[b] + Counts(ys)[b]
  {
    forall b | 0 <= b < BUCKETS ensures Counts(xs + ys)[b] == Counts(xs)[b] + Counts(ys)[b] {
      CountConcat(xs, ys, b);
    }
  }

  lemma {:induction false} AccumulatedSum(f: seq<nat>, g: seq<nat>, h: seq<nat>, b: nat)
    requires |f| == |g| == |h| && b <= |h|
    requires forall c :: 0 <= c < |h| ==> h[c] == f[c] + g[c]
    ensures Accumulated(h, b) == Accumulated(f, b) + Accumulated(g, b)
  {
    if b > 0 {
      AccumulatedSum(f, g, h, b - 1);
    }
  }

  lemma PortionSum(m: nat, n: nat, p: real)
    requires 0.0 <= p <= 1.0
    ensures Portion(m, p) + Portion(n, p) <= Portion(m + n, p) <= Portion(m, p) + Portion(n, p) + 1
  {
    assert (m + n) as real * p == m as real * p + n as real * p;
  }

  /** The percentile of a merged history is never below the smaller of the two; it is not above
      the larger one either when the two ranks add up to the merged rank. */
  lemma MergedPercentile(xs: seq<nat>, ys: seq<nat>, p: real)
    ensures PercentileNs(xs + ys, p) >= PercentileNs(xs, p) || PercentileNs(xs + ys, p) >= PercentileNs(ys, p)
    ensures Target(|xs| + |ys|, p) == Target(|xs|, p) + Target(|ys|, p) ==>
              PercentileNs(xs + ys, p) <= PercentileNs(xs, p) || PercentileNs(xs + ys, p) <= PercentileNs(ys, p)
  {
    hide Counts;
    hide FirstReaching;
    hide Accumulated;
    hide Pow2;
    if xs != [] && ys != [] {
      var f, g, h := Counts(xs), Counts(ys), Counts(xs + ys);
      var j, k, t := Target(|xs|, p), Target(|ys|, p), Target(|xs| + |ys|, p);
      PortionSum(|xs|, |ys|, Clamp(p));
      CountsConcat(xs, ys);
      ScanStops(xs, j);
      ScanStops(ys, k);
      MergedScan(f, g, h, j, k, t);
      var r, u, v := PercentileBucket(xs + ys, p), PercentileBucket(xs, p), PercentileBucket(ys, p);
      if r >= u { Pow2Monotone(u, r); } else { Pow2Monotone(r, u); }
      if r >= v { Pow2Monotone(v, r); } else { Pow2Monotone(r, v); }
    } else {
      assert xs + ys == if xs == [] then ys else xs;
    }
  }

  ghost predicate NotAboveLarger(xs: seq<nat>, ys: seq<nat>, p: real) {
    PercentileNs(xs + ys, p) <= PercentileNs(xs, p) || PercentileNs(xs + ys, p) <= PercentileNs(ys, p)
  }

  /** For histories of m and n samples the merged percentile is sure not to exceed the larger separate
      one exactly when the two ranks add up to the merged rank. */
  lemma MergedAboveIff(m: nat, n: nat, p: real)
    ensures (forall xs: seq<nat>, ys: seq<nat> :: |xs| == m && |ys| == n ==> NotAboveLarger(xs, ys, p))
            <==> Target(m + n, p) == Target(m, p) + Target(n, p)
  {
    hide Target;
    hide PercentileNs;
    if Target(m + n, p) == Target(m, p) + Target(n, p) {
      forall xs: seq<nat>, ys: seq<nat> | |xs| == m && |ys| == n ensures NotAboveLarger(xs, ys, p) {
        MergedPercentile(xs, ys, p);
      }
    } else {
      MergedAbove(m, n, p);
      assert !NotAboveLarger(ZerosThenOnes(Target(m, p), m), ZerosThenOnes(Target(n, p), n), p);
    }
  }

  /** A history of `zeros` samples of 0 ns, filled up to `n` samples with 1 ns. */
  function ZerosThenOnes(zeros: nat, n: nat): (s: seq<nat>)
    requires zeros <= n
    ensures |s| == n
  {
    seq(n, i requires 0 <= i < n => if i < zeros then 0 else 1)
  }

  lemma {:induction false} CountZerosThenOnes(zeros: nat, n: nat)
    requires zeros <= n
    ensures Count(ZerosThenOnes(zeros, n), 0) == zeros && Count(ZerosThenOnes(zeros, n), 1) == n - zeros
  {
    assert BitLength(0) == 0 && BitLength(1) == 1;
    if n > 0 {
      var fewer := if zeros < n then zeros else n - 1;
      assert ZerosThenOnes(zeros, n)[..n - 1] == ZerosThenOnes(fewer, n - 1);
      CountZerosThenOnes(fewer, n - 1);
    }
  }

  /** The scan over samples that are all 0 or 1 ns. */
  lemma ScanTwoBuckets(h: seq<nat>, target: nat)
    requires |h| >= 2 && target <= h[0] + h[1]
    ensures FirstReaching(h, target, 0) == if target <= h[0] then 0 else 1
  {
    assert Accumulated(h, 0) == 0;
    assert Accumulated(h, 1) == h[0];
    assert Accumulated(h, 2) == h[0] + h[1];
    assert FirstReaching(h, target, 0) == if target <= h[0] then 0 else FirstReaching(h, target, 1);
  }

  /** When the ranks do not add up, zeros up to the separate ranks leave both percentiles at 1 ns
      while the merged rank falls on a one. */
  lemma MergedAbove(m: nat, n: nat, p: real)
    requires Target(m + n, p) != Target(m, p) + Target(n, p)
    ensures var xs, ys := ZerosThenOnes(Target(m, p), m), ZerosThenOnes(Target(n, p), n);
            PercentileNs(xs, p) <= 1 && PercentileNs(ys, p) <= 1 && PercentileNs(xs + ys, p) == 2
  {
    hide Target;
    hide Counts;
    hide FirstReaching;
    hide ZerosThenOnes;
    var j, k, t := Target(m, p), Target(n, p), Target(m + n, p);
    var xs, ys := ZerosThenOnes(j, m), ZerosThenOnes(k, n);
    TargetSum(m, n, p);
    ScanZerosThenOnes(j, m, j);
    ScanZerosThenOnes(k, n, k);
    MergedCounts(j, m, k, n);
    ScanTwoBuckets(Counts(xs + ys), t);
    assert Pow2(0) == 1 && Pow2(1) == 2;
  }

  lemma TargetSum(m: nat, n: nat, p: real)
    ensures Target(m, p) + Target(n, p) <= Target(m + n, p) <= Target(m, p) + Target(n, p) + 1
  {
    PortionSum(m, n, Clamp(p));
  }

  lemma MergedCounts(j: nat, m: nat, k: nat, n: nat)
    requires j <= m && k <= n
    ensures var h := Counts(ZerosThenOnes(j, m) + ZerosThenOnes(k, n));
            h[0] == j + k && h[1] == m + n - j - k
  {
    CountZerosThenOnes(j, m);
    CountZerosThenOnes(k, n);
    CountsConcat(ZerosThenOnes(j, m), ZerosThenOnes(k, n));
  }

  lemma ScanZerosThenOnes(zeros: nat, n: nat, target: nat)
    requires zeros <= n && target <= n
    ensures FirstReaching(Counts(ZerosThenOnes(zeros, n)), target, 0) == if target <= zeros then 0 else 1
  {
    hide Count;
    CountZerosThenOnes(zeros, n);
    ScanTwoBuckets(Counts(ZerosThenOnes(zeros, n)), target);
  }

  lemma MergedScan(f: seq<nat>, g: seq<nat>, h: seq<nat>, j: nat, k: nat, t: nat)
    requires |f| == |g| == |h| && j + k <= t
    requires forall c :: 0 <= c < |h| ==> h[c] == f[c] + g[c]
    requires FirstReaching(f, j, 0) < |f| && FirstReaching(g, k, 0) < |g|
    ensures FirstReaching(h, t, 0) >= FirstReaching(f, j, 0) || FirstReaching(h, t, 0) >= FirstReaching(g, k, 0)
    ensures t == j + k ==> FirstReaching(h, t, 0) <= FirstReaching(f, j, 0) || FirstReaching(h, t, 0) <= FirstReaching(g, k, 0)
  {
    hide Accumulated;
    hide FirstReaching;
    var u, v, r := FirstReaching(f, j, 0), FirstReaching(g, k, 0), FirstReaching(h, t, 0);
    var m := if u < v then v else u;
    if r < |h| {
      AccumulatedSum(f, g, h, r + 1);
    }
    AccumulatedSum(f, g, h, m + 1);
    AccumulatedMonotone(f, u + 1, m + 1);
    AccumulatedMonotone(g, v + 1, m + 1);
  }
}
