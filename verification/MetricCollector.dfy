/** The latency and throughput collector, updated in place. */
module MetricCollector {
  import opened Bits
  import opened Sequences
  import opened Histogram

  const NO_MINIMUM: nat := 0xFFFF_FFFF_FFFF_FFFF

  function Sum(values: seq<int>): int {
    if values == [] then 0 else Sum(values[..|values| - 1]) + values[|values| - 1]
  }

  function Least(samples: seq<nat>): nat {
    if samples == [] then NO_MINIMUM
    else
      var rest, last := Least(samples[..|samples| - 1]), samples[|samples| - 1];
      if last < rest then last else rest
  }

  function Greatest(samples: seq<nat>): nat {
    if samples == [] then 0
    else
      var rest, last := Greatest(samples[..|samples| - 1]), samples[|samples| - 1];
      if last > rest then last else rest
  }

  /** Sums of joined logs add up, and the sum of one count is that count: what fixes `Sum`. */
  lemma {:induction false} SumConcat(xs: seq<int>, ys: seq<int>)
    ensures Sum(xs + ys) == Sum(xs) + Sum(ys)
    ensures |ys| == 1 ==> Sum(ys) == ys[0]
  {
    if ys == [] {
      assert xs + ys == xs;
    } else {
      assert (xs + ys)[..|xs + ys| - 1] == xs + ys[..|ys| - 1];
      SumConcat(xs, ys[..|ys| - 1]);
    }
  }

  /** The minimum is below every sample and is one of them, or 2^64 - 1 if none is smaller. */
  lemma {:induction false} LeastIsMinimum(samples: seq<nat>)
    ensures Least(samples) <= 0xFFFF_FFFF_FFFF_FFFF
    ensures forall i :: 0 <= i < |samples| ==> Least(samples) <= samples[i]
    ensures Least(samples) == 0xFFFF_FFFF_FFFF_FFFF || Least(samples) in samples
  {
    if samples != [] {
      LeastIsMinimum(samples[..|samples| - 1]);
    }
  }

  /** The maximum is above every sample and is one of them, or 0 if there is none. */
  lemma {:induction false} GreatestIsMaximum(samples: seq<nat>)
    ensures forall i :: 0 <= i < |samples| ==> samples[i] <= Greatest(samples)
    ensures if samples == [] then Greatest(samples) == 0 else Greatest(samples) in samples
  {
    if samples != [] {
      GreatestIsMaximum(samples[..|samples| - 1]);
    }
  }

  lemma CountsAppend(samples: seq<nat>, ns: nat)
    ensures forall b :: 0 <= b < BUCKETS ==>
      Counts(samples + [ns])[b] == Counts(samples)[b] + (if b == BucketOf(ns) then 1 else 0)
  {
    hide BucketOf;
    assert (samples + [ns])[..|samples|] == samples;
  }

  class Collector {
    const buckets: array<nat>
    var totalOps: nat
    var totalBytes: int
    var minLatency: nat
    var maxLatency: nat

    /** Everything recorded since construction or the last reset. */
    ghost var samples: seq<nat>
    ghost var byteLog: seq<int>

    ghost predicate Valid()
      reads this, buckets
    {
      && buckets.Length == BUCKETS
      && buckets[..] == Counts(samples)
      && totalOps == |samples|
      && totalBytes == Sum(byteLog)
      && minLatency == Least(samples)
      && maxLatency == Greatest(samples)
    }

    constructor ()
      ensures Valid() && fresh(buckets)
      ensures samples == [] && byteLog == []
    {
      buckets := new nat[BUCKETS](_ => 0);
      totalOps, totalBytes, minLatency, maxLatency := 0, 0, NO_MINIMUM, 0;
      samples, byteLog := [], [];
    }

    method RecordLatency(ns: nat)
      requires Valid()
      modifies this`totalOps, this`minLatency, this`maxLatency, this`samples, buckets
      ensures Valid() && samples == old(samples) + [ns]
    {
      hide Counts;
      hide BitLength;
      hide Sum;
      var idx := BitLength(ns);
      if idx >= 64 {
        idx := 63;
      }
      CountsAppend(samples, ns);
      assert (samples + [ns])[..|samples|] == samples;
      buckets[idx] := buckets[idx] + 1;
      totalOps := totalOps + 1;
      if ns < minLatency {
        minLatency := ns;
      }
      if ns > maxLatency {
        maxLatency := ns;
      }
      samples := samples + [ns];
      assert idx == BucketOf(ns);
    }

    method RecordBytes(byteCount: int)
      requires Valid()
      modifies this`totalBytes, this`byteLog
      ensures Valid() && byteLog == old(byteLog) + [byteCount]
    {
      assert (byteLog + [byteCount])[..|byteLog|] == byteLog;
      totalBytes := totalBytes + byteCount;
      byteLog := byteLog + [byteCount];
    }

    /** The scan, in nanoseconds: it reports the bucket bound the recorded history determines, and
        always returns from inside the loop. */
    method Percentile(p: real) returns (ns: nat)
      requires Valid()
      ensures ns == PercentileNs(samples, p)
      ensures samples == [] ==> ns == 0
    {
      hide Counts;
      hide FirstReaching;
      hide Portion;
      if totalOps == 0 {
        return 0;
      }
      var target := Portion(totalOps, Clamp(p));
      ScanStops(samples, target);
      ghost var h, stop := Counts(samples), FirstReaching(Counts(samples), target, 0);
      var accumulated, idx := 0, 0;
      while idx < buckets.Length
        invariant 0 <= idx <= stop
        invariant accumulated == Accumulated(h, idx)
      {
        assert buckets[idx] == h[idx];
        accumulated := accumulated + buckets[idx];
        assert accumulated == Accumulated(h, idx + 1);
        if accumulated >= target {
          return if idx > 0 then Pow2(idx) else 1;
        }
        idx := idx + 1;
      }
      assert false;
    }

    method Reset()
      requires Valid()
      modifies this, buckets
      ensures Valid() && samples == [] && byteLog == []
    {
      for b := 0 to buckets.Length
        invariant forall c :: 0 <= c < b ==> buckets[c] == 0
      {
        buckets[b] := 0;
      }
      totalOps, totalBytes, minLatency, maxLatency := 0, 0, NO_MINIMUM, 0;
      samples, byteLog := [], [];
    }
  }
}
