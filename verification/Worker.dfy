/** One core's load loop: the worker engine and the emulator's simulated worker. The adapter is an
    oracle that answers the n-th write with a byte count and an elapsed time, or fails. */
module Worker {
  import opened Bits
  import opened Division
  import opened Payload
  import opened Mutator
  import opened Histogram
  import opened MetricCollector
  import opened Sharding

  datatype Outcome = Written(bytes: int, ns: nat) | Failed

  type Adapter = nat -> Outcome

  /** One call of the adapter's write. */
  datatype Attempt = Attempt(offset: nat, data: seq<byte>)

  datatype Telemetry = Telemetry(
    nodeId: string, coreId: nat, totalOps: nat, totalBytes: int,
    p50: nat, p90: nat, p99: nat, p999: nat, failed: bool)

  datatype WorkerResult = Finished(telemetry: Telemetry) | Raised

  /** Number of writes that succeed before the first failure, among the first `n`. */
  function Successes(write: Adapter, n: nat): (k: nat)
    ensures k <= n
    ensures forall i :: 0 <= i < k ==> write(i).Written?
    ensures k < n ==> write(k).Failed?
  {
    if n == 0 then 0
    else
      var k := Successes(write, n - 1);
      if k < n - 1 || write(k).Failed? then k else n
  }

  function Elapsed(write: Adapter, n: nat): (s: seq<nat>)
    requires forall i :: 0 <= i < n ==> write(i).Written?
    ensures |s| == n && forall i :: 0 <= i < n ==> s[i] == write(i).ns
  {
    seq(n, i requires 0 <= i < n => write(i).ns)
  }

  function WrittenBytes(write: Adapter, n: nat): (s: seq<int>)
    requires forall i :: 0 <= i < n ==> write(i).Written?
    ensures |s| == n && forall i :: 0 <= i < n ==> s[i] == write(i).bytes
  {
    seq(n, i requires 0 <= i < n => write(i).bytes)
  }

  method Report(spec: ShardSpec, c: Collector, failed: bool) returns (t: Telemetry)
    requires c.Valid()
    ensures t.nodeId == spec.nodeId && t.coreId == spec.coreId && t.failed == failed
    ensures t.totalOps == |c.samples| && t.totalBytes == Sum(c.byteLog)
    ensures t.p50 == PercentileNs(c.samples, 0.50) && t.p90 == PercentileNs(c.samples, 0.90)
    ensures t.p99 == PercentileNs(c.samples, 0.99) && t.p999 == PercentileNs(c.samples, 0.999)
  {
    var p50 := c.Percentile(0.50);
    var p90 := c.Percentile(0.90);
    var p99 := c.Percentile(0.99);
    var p999 := c.Percentile(0.999);
    t := Telemetry(spec.nodeId, spec.coreId, c.totalOps, c.totalBytes, p50, p90, p99, p999, failed);
  }

  /** The bytes a view shows. */
  method ViewBytes(view: View) returns (data: seq<byte>)
    requires view.Fits()
    ensures data == view.mem[view.start..view.start + view.len]
  {
    data := view.mem[view.start..view.start + view.len];
  }

  /** Write `k` goes `k` strides past the base and carries the payload of op `k + 1`. */
  ghost predicate ShardWrites(program: Program, spec: ShardSpec, attempts: seq<Attempt>) {
    forall k :: 0 <= k < |attempts| ==>
      attempts[k] == Attempt(spec.baseOffset + k * spec.stride, OpPayload(program, spec.seed, spec.blockSize, k + 1))
  }

  /** After `n` recorded writes. */
  ghost predicate Recorded(c: Collector, write: Adapter, n: nat)
    reads c, c.buckets
  {
    && c.Valid()
    && (forall i :: 0 <= i < n ==> write(i).Written?)
    && c.samples == Elapsed(write, n)
    && c.byteLog == WrittenBytes(write, n)
  }

  method RecordWrite(c: Collector, write: Adapter, n: nat)
    requires Recorded(c, write, n) && write(n).Written?
    modifies c, c.buckets
    ensures Recorded(c, write, n + 1)
  {
    hide Collector.Valid;
    c.RecordLatency(write(n).ns);
    c.RecordBytes(write(n).bytes);
  }

  /** Between two turns, `n` writes have been recorded and the buffer holds the payload of op `n`. */
  ghost predicate InStep(program: Program, seed: nat, m: PayloadMutator, c: Collector, write: Adapter, n: nat)
    reads m, m.mem, m.lease, c, c.buckets
  {
    && m.Valid() && !m.closed
    && m.mem[..] == OpPayload(program, seed, m.size, n)
    && Recorded(c, write, n)
  }

  method NewCollector(ghost write: Adapter) returns (c: Collector)
    ensures fresh(c) && fresh(c.buckets) && Recorded(c, write, 0)
  {
    c := new Collector();
  }

  method Prepare(ghost program: Program, ghost seed: nat, blockSize: nat, ghost write: Adapter)
    returns (m: PayloadMutator, c: Collector)
    requires blockSize > 0
    ensures fresh(m) && fresh(m.mem) && fresh(c) && fresh(c.buckets)
    ensures m.size == blockSize && InStep(program, seed, m, c, write, 0)
  {
    hide OpPayload;
    c := NewCollector(write);
    m := new PayloadMutator(blockSize, 0);
    NoOps(program, seed, blockSize);
  }

  /** One turn of the hot loop: mutate the block, write it, record the write if it succeeded. */
  method Turn(program: Program, seed: nat, m: PayloadMutator, c: Collector, write: Adapter, n: nat, offset: nat)
    returns (accepted: bool, attempt: Attempt)
    requires seed < WORD_SIZE && InStep(program, seed, m, c, write, n)
    modifies m`cache, m.mem, c, c.buckets
    ensures accepted <==> SeedFits(program, seed, m.size, n)
    ensures accepted ==> attempt == Attempt(offset, OpPayload(program, seed, m.size, n + 1))
    ensures if accepted && write(n).Written? then InStep(program, seed, m, c, write, n + 1) else Recorded(c, write, n)
  {
    hide OpPayload;
    hide Effect;
    hide Recorded;
    var buf := m.ApplyEntropy(0, m.size, OpSeed(program, seed, n));
    if buf.Err? {
      return false, Attempt(offset, []);
    }
    OpHistory(program, seed, m.size, n);
    var data := ViewBytes(buf.value.view);
    assert data == m.mem[..];
    if write(n).Written? {
      RecordWrite(c, write, n);
    }
    return true, Attempt(offset, data);
  }

  /** The engine's loop. The timer lets `batches` batches start, at least one since it cannot
      fire before the first; a failing write ends the run and is counted nowhere. */
  method Execute(spec: ShardSpec, queueDepth: nat, batches: nat, write: Adapter)
    returns (collector: Collector, telemetry: Telemetry, attempts: seq<Attempt>)
    requires spec.blockSize > 0 && spec.seed < WORD_SIZE && batches > 0
    ensures var limit := batches * queueDepth;
            var ops := Successes(write, limit);
            && Recorded(collector, write, ops)
            && telemetry.totalOps == ops && (telemetry.failed <==> ops < limit)
            && telemetry.totalBytes == Sum(WrittenBytes(write, ops))
            && telemetry.p50 == PercentileNs(Elapsed(write, ops), 0.50)
            && telemetry.p90 == PercentileNs(Elapsed(write, ops), 0.90)
            && telemetry.p99 == PercentileNs(Elapsed(write, ops), 0.99)
            && telemetry.p999 == PercentileNs(Elapsed(write, ops), 0.999)
            && |attempts| == ops + (if ops < limit then 1 else 0)
            && ShardWrites(Engine, spec, attempts)
    ensures telemetry.nodeId == spec.nodeId && telemetry.coreId == spec.coreId
    ensures telemetry.p50 <= telemetry.p90 <= telemetry.p99 <= telemetry.p999
  {
    hide OpPayload;
    hide ShardWrites;
    hide Recorded;
    hide InStep;
    hide Successes;
    hide PercentileNs;
    hide Sum;
    hide Elapsed;
    hide WrittenBytes;
    var mutator;
    mutator, collector := Prepare(Engine, spec.seed, spec.blockSize, write);
    NoWrites(Engine, spec);
    ghost var limit := batches * queueDepth;
    var offset, n, failed := spec.baseOffset, 0, false;
    attempts := [];
    var batch, keepRunning := 0, true;
    while keepRunning && !failed
      invariant fresh(collector) && fresh(collector.buckets) && fresh(mutator) && fresh(mutator.mem)
      invariant batch <= batches && keepRunning == (batch < batches)
      invariant if failed then n < limit && write(n).Failed? else n == batch * queueDepth
      invariant if failed then Recorded(collector, write, n) else InStep(Engine, spec.seed, mutator, collector, write, n)
      invariant offset == spec.baseOffset + n * spec.stride
      invariant |attempts| == n + (if failed then 1 else 0) && ShardWrites(Engine, spec, attempts)
      decreases batches - batch
    {
      var q := 0;
      BatchFits(batch, batches, queueDepth);
      while q < queueDepth && !failed
        invariant fresh(collector) && fresh(collector.buckets) && fresh(mutator) && fresh(mutator.mem)
        invariant q <= queueDepth
        invariant if failed then n < limit && write(n).Failed? else n == batch * queueDepth + q
        invariant if failed then Recorded(collector, write, n) else InStep(Engine, spec.seed, mutator, collector, write, n)
        invariant offset == spec.baseOffset + n * spec.stride
        invariant |attempts| == n + (if failed then 1 else 0) && ShardWrites(Engine, spec, attempts)
        decreases queueDepth - q, !failed
      {
        var accepted, attempt := Turn(Engine, spec.seed, mutator, collector, write, n, offset);
        ExtendWrites(Engine, spec, attempts, attempt);
        attempts := attempts + [attempt];
        if write(n).Failed? {
          failed := true;
        } else {
          NextOffset(spec, n);
          offset := offset + spec.stride;
          n := n + 1;
          q := q + 1;
        }
      }
      batch := batch + 1;
      keepRunning := batch < batches;
    }
    InStepRecorded(Engine, spec.seed, mutator, collector, write, n);
    RecordedValues(collector, write, n);
    SuccessesIs(write, limit, n);
    telemetry := ReportRecorded(spec, collector, write, n, failed);
  }

  lemma InStepRecorded(program: Program, seed: nat, m: PayloadMutator, c: Collector, write: Adapter, n: nat)
    ensures InStep(program, seed, m, c, write, n) ==> Recorded(c, write, n)
  {
  }

  method ReportRecorded(spec: ShardSpec, c: Collector, ghost write: Adapter, ghost n: nat, failed: bool) returns (t: Telemetry)
    requires Recorded(c, write, n)
    ensures t.nodeId == spec.nodeId && t.coreId == spec.coreId && t.failed == failed
    ensures t.totalOps == n && (forall i :: 0 <= i < n ==> write(i).Written?) && t.totalBytes == Sum(WrittenBytes(write, n))
    ensures t.p50 == PercentileNs(Elapsed(write, n), 0.50) && t.p90 == PercentileNs(Elapsed(write, n), 0.90)
    ensures t.p99 == PercentileNs(Elapsed(write, n), 0.99) && t.p999 == PercentileNs(Elapsed(write, n), 0.999)
    ensures t.p50 <= t.p90 <= t.p99 <= t.p999
  {
    hide PercentileNs;
    t := Report(spec, c, failed);
    PercentilesOrdered(c.samples);
  }

  lemma RecordedValues(c: Collector, write: Adapter, n: nat)
    requires Recorded(c, write, n)
    ensures forall i :: 0 <= i < n ==> write(i).Written?
    ensures c.samples == Elapsed(write, n) && c.byteLog == WrittenBytes(write, n)
  {
  }

  lemma NoWrites(program: Program, spec: ShardSpec)
    ensures ShardWrites(program, spec, [])
  {
  }

  lemma ExtendWrites(program: Program, spec: ShardSpec, attempts: seq<Attempt>, next: Attempt)
    requires ShardWrites(program, spec, attempts)
    requires next == Attempt(spec.baseOffset + |attempts| * spec.stride, OpPayload(program, spec.seed, spec.blockSize, |attempts| + 1))
    ensures ShardWrites(program, spec, attempts + [next])
  {
    hide OpPayload;
  }

  lemma BatchFits(batch: nat, batches: nat, queueDepth: nat)
    requires batch < batches
    ensures batch * queueDepth + queueDepth == (batch + 1) * queueDepth <= batches * queueDepth
  {
  }

  lemma NextOffset(spec: ShardSpec, n: nat)
    ensures spec.baseOffset + n * spec.stride + spec.stride == spec.baseOffset + (n + 1) * spec.stride
  {
  }

  lemma {:induction false} SuccessesIs(write: Adapter, limit: nat, n: nat)
    requires n <= limit && (forall i :: 0 <= i < n ==> write(i).Written?) && (n < limit ==> write(n).Failed?)
    ensures Successes(write, limit) == n
  {
  }

  /** Nothing is counted twice or lost: recorded ops are the completed writes, recorded bytes the
      sum of their answers, and the buckets hold every op. */
  lemma Accounting(c: Collector, write: Adapter, n: nat)
    requires Recorded(c, write, n)
    ensures c.totalOps == n && c.totalBytes == Sum(WrittenBytes(write, n))
    ensures Accumulated(c.buckets[..], BUCKETS) == n
  {
    hide Counts;
    AccumulatedCounts(c.samples, BUCKETS);
    AllBelow(c.samples);
  }

  /** What a finished engine run reports: an error exactly if one of its writes failed, with the
      ops that came before it, and otherwise one op for each slot of every batch. */
  lemma {:induction false} ErrorFreeOps(
      c: Collector, write: Adapter, queueDepth: nat, batches: nat, t: Telemetry)
    requires queueDepth > 0 && batches > 0
    requires var ops := Successes(write, batches * queueDepth);
             && Recorded(c, write, ops)
             && t.totalOps == |c.samples| && (t.failed <==> ops < batches * queueDepth)
    ensures t.failed <==> exists k :: 0 <= k < batches * queueDepth && write(k).Failed?
    ensures t.failed ==> write(t.totalOps).Failed? && forall k :: 0 <= k < t.totalOps ==> write(k).Written?
    ensures !t.failed ==> t.totalOps >= queueDepth && t.totalOps % queueDepth == 0 && t.totalOps / queueDepth == batches
  {
    var ops := Successes(write, batches * queueDepth);
    RecordedValues(c, write, ops);
    if !t.failed {
      DivMod(batches, 0, queueDepth);
      MultipleGap(1, batches, queueDepth);
    }
  }

  // ----- the emulator's worker -----

  /** How many of `ticks` turns have a seed the mutator accepts. */
  function Accepted(seed: nat, blockSize: nat, ticks: nat): (n: nat)
    requires seed < WORD_SIZE
    ensures n <= ticks
    ensures forall k :: 0 <= k < ticks ==> (k < n <==> SeedFits(Emulator, seed, blockSize, k))
  {
    if blockSize < 8 || seed + ticks <= WORD_SIZE then ticks else WORD_SIZE - seed
  }

  /** The clock lets `ticks` turns start. A failing write or a seed past 2^64 is raised: no result
      is reported, but the writes made until then have happened. */
  method RunSimulatedNodeWorker(spec: ShardSpec, ticks: nat, write: Adapter)
    returns (r: WorkerResult, attempts: seq<Attempt>)
    requires spec.blockSize > 0 && spec.seed < WORD_SIZE
    ensures var accepted := Accepted(spec.seed, spec.blockSize, ticks);
            var ops := Successes(write, accepted);
            && (r.Finished? <==> ops == ticks)
            && (r.Finished? ==>
                  && r.telemetry.totalOps == ops && !r.telemetry.failed
                  && r.telemetry.totalBytes == Sum(WrittenBytes(write, ops))
                  && r.telemetry.p50 == PercentileNs(Elapsed(write, ops), 0.50)
                  && r.telemetry.p90 == PercentileNs(Elapsed(write, ops), 0.90)
                  && r.telemetry.p99 == PercentileNs(Elapsed(write, ops), 0.99)
                  && r.telemetry.p999 == PercentileNs(Elapsed(write, ops), 0.999))
            && |attempts| == ops + (if ops < accepted then 1 else 0)
            && ShardWrites(Emulator, spec, attempts)
    ensures r.Finished? ==> r.telemetry.nodeId == spec.nodeId && r.telemetry.coreId == spec.coreId
    ensures r.Finished? ==> r.telemetry.p50 <= r.telemetry.p90 <= r.telemetry.p99 <= r.telemetry.p999
  {
    hide OpPayload;
    hide ShardWrites;
    hide Recorded;
    hide InStep;
    hide Successes;
    hide PercentileNs;
    hide Sum;
    var mutator, collector := Prepare(Emulator, spec.seed, spec.blockSize, write);
    NoWrites(Emulator, spec);
    ghost var limit := Accepted(spec.seed, spec.blockSize, ticks);
    var offset, ops := spec.baseOffset, 0;
    attempts := [];
    while ops < ticks
      invariant fresh(collector) && fresh(collector.buckets) && fresh(mutator) && fresh(mutator.mem)
      invariant ops <= limit && |attempts| == ops && ShardWrites(Emulator, spec, attempts)
      invariant InStep(Emulator, spec.seed, mutator, collector, write, ops)
      invariant offset == spec.baseOffset + ops * spec.stride
    {
      InStepRecorded(Emulator, spec.seed, mutator, collector, write, ops);
      RecordedValues(collector, write, ops);
      var accepted, attempt := Turn(Emulator, spec.seed, mutator, collector, write, ops, offset);
      if !accepted {
        SuccessesIs(write, limit, ops);
        return Raised, attempts;
      }
      ExtendWrites(Emulator, spec, attempts, attempt);
      attempts := attempts + [attempt];
      if write(ops).Failed? {
        SuccessesIs(write, limit, ops);
        return Raised, attempts;
      }
      NextOffset(spec, ops);
      offset := offset + spec.stride;
      ops := ops + 1;
    }
    InStepRecorded(Emulator, spec.seed, mutator, collector, write, ops);
    RecordedValues(collector, write, ops);
    SuccessesIs(write, limit, ops);
    var telemetry := ReportRecorded(spec, collector, write, ops, false);
    r := Finished(telemetry);
  }
}
