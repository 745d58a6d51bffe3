/** The micro-burst experiment: three collectors fed side by side, and the percentile tags of
    the combined density profile. */
module Microburst {
  import opened Sequences
  import opened Histogram
  import opened MetricCollector
  import opened Worker

  /** The adapter as it answers from write `k` on. */
  function Later(write: Adapter, k: nat): Adapter {
    (i: nat) => write(k + i)
  }

  function Smaller(n: nat, limit: nat): nat {
    if n < limit then n else limit
  }

  method RecordTwice(own: Collector, combined: Collector, ownWrite: Adapter, k: nat, write: Adapter, n: nat)
    requires own != combined && own.buckets != combined.buckets
    requires Recorded(own, ownWrite, k) && Recorded(combined, write, n)
    requires ownWrite(k) == write(n) && write(n).Written?
    modifies own, own.buckets, combined, combined.buckets
    ensures Recorded(own, ownWrite, k + 1) && Recorded(combined, write, n + 1)
  {
    hide Recorded;
    RecordWrite(own, ownWrite, k);
    RecordWrite(combined, write, n);
  }

  /** The paced phase. It stops at the first write that fails. */
  method RunSteady(steady: Collector, combined: Collector, ops: nat, write: Adapter) returns (n: nat)
    requires steady != combined && steady.buckets != combined.buckets
    requires Recorded(steady, write, 0) && Recorded(combined, write, 0)
    modifies steady, steady.buckets, combined, combined.buckets
    ensures n == Successes(write, ops)
    ensures Recorded(steady, write, n) && Recorded(combined, write, n)
  {
    hide Recorded;
    hide Successes;
    n := 0;
    while n < ops && write(n).Written?
      invariant n <= ops && Recorded(steady, write, n) && Recorded(combined, write, n)
    {
      RecordTwice(steady, combined, write, n, write, n);
      n := n + 1;
    }
    EndsAt(combined, write, ops, n);
  }

  /** The bursts, after `start` writes that all succeeded. */
  method RunBursts(burst: Collector, combined: Collector, start: nat, cycles: nat, intensity: nat, write: Adapter)
    returns (n: nat)
    requires burst != combined && burst.buckets != combined.buckets
    requires Recorded(burst, Later(write, start), 0) && Recorded(combined, write, start)
    modifies burst, burst.buckets, combined, combined.buckets
    ensures n == Successes(write, start + cycles * intensity) >= start
    ensures Recorded(burst, Later(write, start), n - start) && Recorded(combined, write, n)
  {
    hide Recorded;
    hide Successes;
    n := start;
    ghost var later, total := Later(write, start), start + cycles * intensity;
    for cycle := 0 to cycles
      invariant n == start + cycle * intensity
      invariant Recorded(burst, later, n - start) && Recorded(combined, write, n)
    {
      BatchFits(cycle, cycles, intensity);
      for b := 0 to intensity
        invariant n == start + cycle * intensity + b
        invariant Recorded(burst, later, n - start) && Recorded(combined, write, n)
      {
        if write(n).Failed? {
          EndsAt(combined, write, total, n);
          return;
        }
        RecordTwice(burst, combined, Later(write, start), n - start, write, n);
        n := n + 1;
      }
    }
    EndsAt(combined, write, total, n);
  }

  /** Every steady and every burst write is recorded twice: in its own collector and in the combined
      one. A failing write is raised and ends the experiment. */
  method RunMicroburst(steadyOps: nat, burstCycles: nat, burstIntensity: nat, write: Adapter)
    returns (steady: Collector, burst: Collector, combined: Collector, raised: bool)
    ensures var total := steadyOps + burstCycles * burstIntensity;
            var ops := Successes(write, total);
            var k := Smaller(ops, steadyOps);
            && (raised <==> ops < total)
            && Recorded(combined, write, ops)
            && Recorded(steady, write, k)
            && Recorded(burst, Later(write, steadyOps), ops - k)
  {
    hide Recorded;
    hide Successes;
    hide Later;
    steady := NewCollector(write);
    burst := NewCollector(Later(write, steadyOps));
    combined := NewCollector(write);
    ghost var total := steadyOps + burstCycles * burstIntensity;
    var n := RunSteady(steady, combined, steadyOps, write);
    if n < steadyOps {
      FailsAt(write, steadyOps);
      EndsAt(combined, write, total, n);
      raised := true;
    } else {
      n := RunBursts(burst, combined, steadyOps, burstCycles, burstIntensity, write);
      raised := n < steadyOps + burstCycles * burstIntensity;
    }
  }

  lemma FailsAt(write: Adapter, n: nat)
    ensures Successes(write, n) < n ==> write(Successes(write, n)).Failed?
  {
  }

  lemma EndsAt(c: Collector, write: Adapter, limit: nat, n: nat)
    requires Recorded(c, write, n) && n <= limit && (n < limit ==> write(n).Failed?)
    ensures Successes(write, limit) == n
  {
    SuccessesIs(write, limit, n);
  }

  /** The combined collector holds the steady history followed by the burst one, in every bucket the
      sum of their counts, and the sum of their ops and bytes. */
  lemma CombinedIsSum(steady: Collector, burst: Collector, combined: Collector, write: Adapter, j: nat, k: nat)
    requires Recorded(steady, write, j) && Recorded(burst, Later(write, j), k) && Recorded(combined, write, j + k)
    ensures combined.samples == steady.samples + burst.samples
    ensures combined.totalOps == steady.totalOps + burst.totalOps
    ensures combined.totalBytes == steady.totalBytes + burst.totalBytes
    ensures combined.buckets.Length == steady.buckets.Length == burst.buckets.Length == BUCKETS
    ensures forall b :: 0 <= b < BUCKETS ==> combined.buckets[b] == steady.buckets[b] + burst.buckets[b]
  {
    hide Counts;
    hide Sum;
    hide Least;
    hide Greatest;
    assert combined.samples == steady.samples + burst.samples;
    assert combined.byteLog == steady.byteLog + burst.byteLog;
    SumConcat(steady.byteLog, burst.byteLog);
    CountsConcat(steady.samples, burst.samples);
    forall b | 0 <= b < BUCKETS ensures combined.buckets[b] == steady.buckets[b] + burst.buckets[b] {
      assert combined.buckets[..][b] == steady.buckets[..][b] + burst.buckets[..][b];
    }
  }

  // ----- the tags of the density profile -----

  datatype Tag = Untagged | P50 | P90 | P99

  /** The smallest whole rank that is at least `percent` percent of `n`. */
  function CeilRank(n: nat, percent: nat): nat {
    (n * percent + 99) / 100
  }

  function RankBucket(samples: seq<nat>, percent: nat): nat {
    FirstReaching(Counts(samples), CeilRank(|samples|, percent), 0)
  }

  function TagOf(samples: seq<nat>, b: nat): Tag {
    if b == RankBucket(samples, 50) then P50
    else if b == RankBucket(samples, 90) then P90
    else if b == RankBucket(samples, 99) then P99
    else Untagged
  }

  /** Does the cumulative percentage cross `percent` inside a bucket of `count` samples? */
  function Crosses(cumulative: nat, count: nat, total: nat, percent: nat): bool
    requires total > 0
  {
    var cumPct := cumulative as real / total as real * 100.0;
    cumPct >= percent as real && cumPct - count as real / total as real * 100.0 < percent as real
  }

  lemma CrossesIff(cumulative: nat, count: nat, total: nat, percent: nat)
    requires total > 0 && count <= cumulative
    ensures Crosses(cumulative, count, total, percent)
            <==> cumulative - count < CeilRank(total, percent) <= cumulative
  {
    var n, x, y := total as real, cumulative as real, (cumulative - count) as real;
    Scaled(x, n, percent as real);
    Scaled(y, n, percent as real);
    assert x / n * 100.0 - count as real / n * 100.0 == y / n * 100.0;
    assert x * 100.0 >= percent as real * n <==> cumulative * 100 >= percent * total;
    assert y * 100.0 >= percent as real * n <==> (cumulative - count) * 100 >= percent * total;
  }

  lemma Scaled(x: real, n: real, p: real)
    requires n > 0.0
    ensures x / n * 100.0 >= p <==> x * 100.0 >= p * n
  {
    var q := x / n;
    assert q * n == x;
    assert (q * 100.0 - p) * n == x * 100.0 - p * n;
  }

  /** The tagging loop over the non-empty buckets. */
  method TagProfile(combined: Collector) returns (tags: map<nat, Tag>)
    requires combined.Valid()
    ensures forall b :: b in tags <==> 0 <= b < BUCKETS && Counts(combined.samples)[b] > 0
    ensures forall b :: b in tags ==> tags[b] == TagOf(combined.samples, b)
  {
    hide Counts;
    hide FirstReaching;
    hide Crosses;
    hide CeilRank;
    ghost var samples, h := combined.samples, Counts(combined.samples);
    tags := map[];
    var cumulative := 0;
    for idx := 0 to combined.buckets.Length
      invariant cumulative == Accumulated(h, idx)
      invariant forall b :: b in tags <==> 0 <= b < idx && h[b] > 0
      invariant forall b :: b in tags ==> tags[b] == TagOf(samples, b)
    {
      var count := combined.buckets[idx];
      assert count == h[idx];
      if count > 0 {
        AccumulatedTotal(samples, idx + 1);
        cumulative := cumulative + count;
        var total := combined.totalOps;
        var tag := if Crosses(cumulative, count, total, 50) then P50
                   else if Crosses(cumulative, count, total, 90) then P90
                   else if Crosses(cumulative, count, total, 99) then P99
                   else Untagged;
        CrossingBucket(samples, idx, 50);
        CrossingBucket(samples, idx, 90);
        CrossingBucket(samples, idx, 99);
        tags := tags[idx := tag];
      }
    }
  }

  lemma AccumulatedTotal(samples: seq<nat>, b: nat)
    requires b <= BUCKETS
    ensures Accumulated(Counts(samples), b) <= |samples|
  {
    AccumulatedCounts(samples, b);
  }

  lemma CrossingBucket(samples: seq<nat>, b: nat, percent: nat)
    requires b < BUCKETS && samples != [] && percent > 0
    ensures var h := Counts(samples);
            Crosses(Accumulated(h, b + 1), h[b], |samples|, percent) && h[b] > 0
            <==> b == RankBucket(samples, percent) && h[b] > 0
  {
    hide Counts;
    hide Crosses;
    hide FirstReaching;
    var h, rank := Counts(samples), CeilRank(|samples|, percent);
    CrossesIff(Accumulated(h, b + 1), h[b], |samples|, percent);
    var r := FirstReaching(h, rank, 0);
    if b < r {
      AccumulatedMonotone(h, b + 1, r);
    } else if r < b {
      AccumulatedMonotone(h, r + 1, b);
    }
  }

  /** Exactly one tag marks the median: the bucket of the ceil(n/2)-th smallest sample. The median
      scan stops there for even n; for odd n it looks one sample earlier, so it stops there only if
      that sample, or 0 ns when there is none, shares the bucket. It never stops later. */
  lemma MedianTag(samples: seq<nat>, sorted: seq<nat>)
    requires samples != [] && multiset(sorted) == multiset(samples) && Sorted(sorted)
    ensures |sorted| == |samples|
    ensures var b := RankBucket(samples, 50);
            && b == BucketOf(sorted[(|samples| - 1) / 2])
            && b < BUCKETS && Counts(samples)[b] > 0
            && (forall c :: 0 <= c < BUCKETS ==> (TagOf(samples, c) == P50 <==> c == b))
            && PercentileBucket(samples, 0.5) <= b
            && (PercentileBucket(samples, 0.5) == b
                <==> || |samples| % 2 == 0
                     || b == if |samples| == 1 then 0 else BucketOf(sorted[(|samples| - 1) / 2 - 1]))
  {
    hide Counts;
    hide FirstReaching;
    hide BucketOf;
    assert |multiset(sorted)| == |multiset(samples)|;
    var n := |samples|;
    assert CeilRank(n, 50) == (n - 1) / 2 + 1;
    ScanIsOrderStatistic(samples, sorted, CeilRank(n, 50));
    HalfPortion(n);
    ScanMonotone(Counts(samples), Target(n, 0.5), CeilRank(n, 50));
    if n / 2 > 0 {
      ScanIsOrderStatistic(samples, sorted, n / 2);
    }
    assert Accumulated(Counts(samples), RankBucket(samples, 50)) < CeilRank(n, 50);
  }

  /** The bucket that crosses a percentage holds the nearest-rank sample: the smallest rank k that is
      at least that share of n. */
  lemma RankBucketIsNearestRank(samples: seq<nat>, sorted: seq<nat>, percent: nat, k: nat)
    requires samples != [] && multiset(sorted) == multiset(samples) && Sorted(sorted)
    requires 1 <= percent <= 100 && 100 * (k - 1) < percent * |samples| <= 100 * k
    ensures |sorted| == |samples| && 1 <= k <= |samples|
    ensures RankBucket(samples, percent) == BucketOf(sorted[k - 1])
  {
    hide Counts;
    hide FirstReaching;
    hide BucketOf;
    var p := percent * |samples|;
    assert |samples| <= p <= 100 * |samples|;
    assert |samples| * percent == p;
    assert CeilRank(|samples|, percent) == k;
    ScanIsOrderStatistic(samples, sorted, k);
  }

  /** The tag of every bucket, told from the sorted samples alone: of the buckets of the nearest-rank
      50th, 90th and 99th percentile, the first of the three that a bucket holds names its tag. */
  lemma TagsAreNearestRanks(samples: seq<nat>, sorted: seq<nat>, i: nat, j: nat, k: nat, b: nat)
    requires samples != [] && multiset(sorted) == multiset(samples) && Sorted(sorted)
    requires 100 * (i - 1) < 50 * |samples| <= 100 * i
    requires 100 * (j - 1) < 90 * |samples| <= 100 * j
    requires 100 * (k - 1) < 99 * |samples| <= 100 * k
    ensures |sorted| == |samples| && 1 <= i <= j <= k <= |samples|
    ensures TagOf(samples, b) == if b == BucketOf(sorted[i - 1]) then P50
                                 else if b == BucketOf(sorted[j - 1]) then P90
                                 else if b == BucketOf(sorted[k - 1]) then P99
                                 else Untagged
  {
    hide RankBucket;
    hide BucketOf;
    RankBucketIsNearestRank(samples, sorted, 50, i);
    RankBucketIsNearestRank(samples, sorted, 90, j);
    RankBucketIsNearestRank(samples, sorted, 99, k);
  }

  /** The p50 tag is sure to sit on the bucket of the reported median, whatever was recorded, exactly
      for even counts. With an odd count the scan's rank is one lower than the tag's. */
  lemma MedianAgreesIff(n: nat)
    requires n > 0
    ensures (forall samples: seq<nat> :: |samples| == n ==> PercentileBucket(samples, 0.5) == RankBucket(samples, 50))
            <==> n % 2 == 0
  {
    hide Counts;
    hide FirstReaching;
    hide ZerosThenOnes;
    HalfPortion(n);
    if n % 2 == 1 {
      var half := (n - 1) / 2;
      var samples := ZerosThenOnes(half, n);
      ScanZerosThenOnes(half, n, half);
      ScanZerosThenOnes(half, n, half + 1);
      assert PercentileBucket(samples, 0.5) != RankBucket(samples, 50);
    }
  }

  lemma HalfPortion(n: nat)
    ensures Target(n, 0.5) == n / 2
  {
    var k := Portion(n, 0.5);
    assert k as real <= n as real * 0.5 < k as real + 1.0;
  }
}
