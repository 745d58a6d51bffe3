# Verified model of the STEVE load-generation engine

STEVE generates deterministic storage load. A generator numbers every core of a cluster and gives
each one a SplitMix64 seed, a first block and a stride; a barrier starts all nodes together; every
core then rewrites an in-memory payload by XOR, writes it, steps its offset and records the
latency in a 64-bucket histogram. This project models that engine in Dafny and proves what its
design documents promise, for every topology, every interleaving, every sample history and every
order of calls.

| file | what it models |
|---|---|
| `Bits.dfy`, `Division.dfy`, `Sequences.dfy` | Python's `^`, `>>`, `&` on integers, little-endian words, quotients, permutations |
| `SplitMix.dfy` | the seed hash and its explicit inverse |
| `Sharding.dfy` | the shard generator, eviction and recovery |
| `Payload.dfy`, `Mutator.dfy` | the XOR mutator: its effect on bytes, and the class with its slice cache |
| `Histogram.dfy`, `MetricCollector.dfy`, `Microburst.dfy` | buckets, percentile scan, merging, percentile tags |
| `Worker.dfy` | the worker engine's and the emulator's load loop |
| `FleetRun.dfy` | all workers of the engine or the emulator interleaved over one shared address space, with writes that may fail half-way |
| `NodeNames.dfy`, `Barrier.dfy` | the start barrier as a step system |
| `KvCache.dfy`, `QuerySplit.dfy`, `Chaos.dfy` | the paged KV walk, the query split, the chi-squared score and the chaos experiment |

## How the source is read

- Python integers are naturals; `^`, `>>` and `& 0xFFFFFFFFFFFFFFFF` are defined on them. The hash is
  written as the list of its six 64-bit operations, in order.
- `adapter.write` is an oracle that answers the n-th write with a byte count and a latency or fails.
  The timer is the number of batches it lets start; it is at least one, because nothing is awaited
  between starting the timer and the first check of the flag. A clock is a parameter.
- `numpy.uint64` rejects a masked seed outside [0, 2^64), as in the NumPy 2 release the project
  locks; a slice of fewer than eight bytes, or a portion of zero words, never builds the mask.
- Floats (percentile rank, entropy ratio, chi-squared, cumulative percentages) are reals, and latencies
  stay in nanoseconds instead of being divided by 1e6.
- The fleet shares one byte range, as the offsets are computed for one; the engine itself gives each
  core its own file (`steve/orchestrator/worker.py:50`). A write that succeeds stores the whole
  block; a write that fails may leave any bytes, at most a block of them, at its own offset.
- In the barrier, announcing is one atomic step and waking is another at any later time. Waking at once
  when the flag is already up, which is what asyncio does, is one of the schedules covered.
- The design documents differ from the code in two places, and the code is followed: latency buckets are
  `bit_length`, not floor(log2) (`docs/04-lld/validation/LLD-VAL-001.md:97`), and the seed hash is SplitMix64, not
  MurmurHash (`docs/02-hld/control-plane/HLD-DIST-001.md:98`).

## What turned out not to hold without a condition

- The map the generator returns covers the fleet if and only if no node that has cores is followed by
  a node of the same id (`Sharding.MapCoversFleetIff`).
- The reported percentile is an upper bound of the ranked sample if and only if that sample is below
  2^63 ns (`Histogram.PercentileIsOrderStatistic`).
- Callers of the barrier are sure to get one start time if and only if no caller is spare, that is, no
  caller's absence would leave enough distinct ids to open it (`Barrier.AgreementIff`; `Barrier.LateRun` gives
  the run that disagrees). The barrier completes if and only if the callers bring enough distinct ids
  (`Barrier.CompletionIff`).
- Payloads of two engine workers can coincide: in their even ops both write zeros, and an odd op whose seed
  equals the mutator's key writes zeros too; nowhere else (`FleetRun.FleetPayloadsEqualIff`).
- The p50 tag of the density profile and the reported median agree on all histories of n samples if and only
  if n is even; a single sample of 5 ns is tagged in bucket 3 and reported as 1 ns (`Microburst.MedianAgreesIff`).
- The combined percentile is sure not to exceed both separate ones if and only if the two ranks add up to the
  combined rank (`Histogram.MergedAboveIff`).
- Emulator workers can take m turns each if and only if no worker's seed plus m passes 2^64, or blocks are
  shorter than a word (`FleetRun.EveryInterleavingTiles`).
- The spawned query ranges cover exactly the requested queries if and only if there are at least
  concurrency - 1 of them (`QuerySplit.SplitIsPartition`).
- The nodes named as evicted are the ones left out if and only if not all nodes fail (`Chaos.EvictedAreTheRest`).

## Model

| member | source | states |
|---|---|---|
| Bits.XorIsBitwise | steve/orchestrator/cluster.py:24-26 | bit k of a ^ b is set exactly when one of the two bits is and the other is not |
| Bits.ByteOfWord | steve/payload/mutator.py:68-70 | byte j of a word in memory is its j-th byte from the least significant one |
| SplitMix.SplitMix64IsTheHash | steve/orchestrator/cluster.py:21-26 | the hash is the published sequence of one addition, two shift-xor-multiply rounds with 30 and 27, and a final shift by 31 |
| SplitMix.WorkerSeedIsTheHash | steve/orchestrator/cluster.py:46-47 | a core's seed is the hash of run seed XOR global core number, cut to 64 bits |
| SplitMix.SplitMix64Injective | steve/orchestrator/cluster.py:21-26 | the seed hash of a 64-bit state is a 64-bit value from which an explicit inverse recovers the state |
| SplitMix.SplitMix64Surjective | steve/orchestrator/cluster.py:21-26 | every 64-bit value is the hash of the state the inverse names, so the hash is a bijection |
| SplitMix.SeedsCollideIff | steve/orchestrator/cluster.py:46-47 | two cores of a run share a seed exactly when their global numbers agree modulo 2^64, for any run seed |
| SplitMix.RunSeedsCollideIff | steve/orchestrator/cluster.py:46-47 | two runs give a core the same seed exactly when the run seeds agree modulo 2^64 |
| Sharding.GenerateClusterShards | steve/orchestrator/cluster.py:28-65 | the nested loops build the map whose entries MappedShard and ShardMapLookup describe; every shard carries the id it is bound to and its local core number |
| Sharding.ShardMapLookup | steve/orchestrator/cluster.py:43-63 | an id is bound exactly if some node carries it, to the shards of the last such node |
| Sharding.MappedShard | steve/orchestrator/cluster.py:43-63 | every field of every shard in the map: id, local core number, seed and base of its global core number, stride N blocks, and the target divided by N rounded down |
| Sharding.MapCoversFleetIff | steve/orchestrator/cluster.py:43-63 | the map starts a worker on each of the first N blocks exactly when no node with cores is followed by one of the same id |
| Sharding.FlattenedMap | usecases/usecase_08_chaos_node_failure.py:88 | with distinct ids, flattening the map in node order gives all workers in global core order |
| Sharding.ShardAt | steve/orchestrator/cluster.py:44-61 | worker i of the flat list belongs to the node that owns global core i and has block i as base and N blocks as stride |
| Sharding.FleetSeedsDistinct | steve/orchestrator/cluster.py:43-47 | all worker seeds of a run of up to 2^64 cores are pairwise distinct |
| Sharding.EvictionKeepsSurvivors | usecases/usecase_08_chaos_node_failure.py:64-111 | resharding over a prefix of the nodes leaves a survivor unchanged but for stride and throughput share |
| Sharding.EvictionThroughput | steve/orchestrator/cluster.py:37-38 | survivors never get a smaller share; shares fill the target up to less than one unit per core |
| Payload.OrderIndependence | steve/payload/mutator.py:60-108 | any two orders of the same mutator calls, overlapping or failing ones included, leave the same buffer |
| Payload.RunDependsOnParity | steve/payload/mutator.py:60-108 | the final buffer depends only on whether each call occurs an odd or even number of times |
| Payload.EvenCallsCancel | steve/payload/mutator.py:60-108 | dropping all occurrences of a call made an even number of times changes nothing |
| Payload.CallFailsIff | steve/payload/mutator.py:45-93 | exactly when a call fails and how: bad ratio before bad slice before a seed outside 64 bits, the last only if a word is to change |
| Payload.ApplyChanges | steve/payload/mutator.py:60-72 | every byte of every whole word of the slice is XORed with its byte of seed ^ 0x5555555555555555, and no other byte changes |
| Payload.ProportionChanges | steve/payload/mutator.py:86-108 | word j of the slice is XORed with seed ^ 0x9E3779B97F4A7C15 exactly if j + 1 <= words * ratio, for both proportional mutators; outside [0, 1] one refuses the ratio and the other clamps it |
| Payload.EffectFrame | steve/payload/mutator.py:66-70 | bytes outside the slice, tail bytes and words past the mutated portion keep their value |
| Payload.DirectEqualsBlock | steve/payload/mutator.py:74-108 | for ratios in [0, 1] the direct and the block mutation of the same view have the same effect |
| Payload.EngineHistory | steve/orchestrator/worker.py:80-89 | with a constant seed, from a zeroed buffer, odd ops leave the mask in every whole word and even ops zero |
| Payload.EmulatorHistory | deploy/emulator/cluster_runner.py:45-57 | with the op number added to the seed every whole word is the XOR of all masks so far, while the seed fits |
| Payload.PayloadsEqualIff | steve/payload/mutator.py:65-70 | two engine payloads agree in a whole word read back exactly when both ops are even, both odd with one seed, or the odd one was made from the key itself |
| Mutator.XorWords | steve/payload/mutator.py:66-70 | the in-place XOR of 64-bit words equals the byte-by-byte XOR with the little-endian bytes of the mask, and touches nothing else |
| Mutator.PayloadMutator.constructor | steve/payload/mutator.py:16-37 | a zeroed buffer whose whole view is cached |
| Mutator.PayloadMutator.GetOrCreateSliceBuffer | steve/payload/mutator.py:39-58 | the cache is invisible: a hit returns what a fresh slice would, out-of-range requests fail and leave the cache unchanged, a granted slice aliases exactly its bytes |
| Mutator.PayloadMutator.ApplyEntropy | steve/payload/mutator.py:60-72 | the buffer changes by the call's effect, the result is the slice or the call's error, whatever is cached |
| Mutator.PayloadMutator.MutateEntropyBlock | steve/payload/mutator.py:74-95 | same for the proportional mutation, with the ratio checked before the slice |
| Mutator.MutateDirectBuffer | steve/payload/mutator.py:97-108 | same for any view, with the ratio clamped; a released view is refused and nothing changes |
| Mutator.PayloadMutator.Close | steve/payload/mutator.py:110-125 | the cache is emptied, every view handed out is released and nothing is granted afterwards |
| Histogram.PercentileIsOrderStatistic | steve/validation/metric_collector.py:45-60 | with k = n*p rounded down and p cut to [0, 1], the percentile is the bucket bound of the k-th smallest sample s: at most 2s, above s exactly when s < 2^63; 1 ns for k = 0 |
| Histogram.RankIsFloor | steve/validation/metric_collector.py:50 | the rank looked for is n*p rounded down, 0 for negative p and n for p above 1, and no other number |
| Histogram.ScanIsOrderStatistic | steve/validation/metric_collector.py:50-58 | scanning for rank k stops at the bucket of the k-th smallest sample |
| Histogram.ScanStops | steve/validation/metric_collector.py:53-60 | the fall-through after the scan is never reached |
| Histogram.BucketBounds | steve/validation/metric_collector.py:19-21 | a sample's bucket bound is at most twice the sample and exceeds it exactly below 2^63 |
| Histogram.PercentileMonotone | steve/validation/metric_collector.py:45-60 | a larger p never reports a smaller latency |
| Histogram.PercentilesOrdered | steve/validation/metric_collector.py:62-76 | p50 <= p90 <= p99 <= p99.9 on every history |
| Histogram.CountsConcat | usecases/usecase_10_tail_latency_microburst.py:67-86 | the combined buckets are the pointwise sum of the separate ones |
| Histogram.MergedPercentile | usecases/usecase_10_tail_latency_microburst.py:93-100 | the combined percentile is never below the smaller separate one, nor above the larger one when the ranks add up |
| Histogram.MergedAboveIff | usecases/usecase_10_tail_latency_microburst.py:93-100 | for m and n samples the combined percentile is sure to stay at or below the larger separate one if and only if rank(m) + rank(n) = rank(m + n); otherwise a history of zeros and ones breaks it |
| MetricCollector.Collector.RecordLatency | steve/validation/metric_collector.py:17-29 | one more sample in the history that buckets, op count, minimum and maximum reflect |
| MetricCollector.LeastIsMinimum | steve/validation/metric_collector.py:26-27 | the minimum is no larger than any sample and is a sample, or 2^64 - 1 when none is smaller |
| MetricCollector.GreatestIsMaximum | steve/validation/metric_collector.py:28-29 | the maximum is no smaller than any sample and is a sample, or 0 when there is none |
| MetricCollector.Collector.RecordBytes | steve/validation/metric_collector.py:31-33 | one more byte count in the recorded total |
| MetricCollector.SumConcat | steve/validation/metric_collector.py:31-33 | the byte total of joined logs is the sum of the totals, and of a single write its own count |
| MetricCollector.Collector.Percentile | steve/validation/metric_collector.py:45-60 | the scan over the buckets reports the percentile of the recorded history |
| MetricCollector.Collector.Reset | steve/validation/metric_collector.py:90-97 | the collector is as if nothing had been recorded |
| Microburst.RunMicroburst | usecases/usecase_10_tail_latency_microburst.py:56-90 | steady writes go to the steady and the combined collector, burst writes to the burst and the combined one, in order; the first failing write is raised, with exactly the writes before it recorded |
| Microburst.CombinedIsSum | usecases/usecase_10_tail_latency_microburst.py:62-87 | the combined history is the steady one followed by the burst one; every bucket, the ops and the bytes are the sums |
| Microburst.TagProfile | usecases/usecase_10_tail_latency_microburst.py:123-145 | every non-empty bucket is tagged p50, p90 or p99 exactly if it holds that nearest-rank percentile and no smaller one of the three |
| Microburst.TagsAreNearestRanks | usecases/usecase_10_tail_latency_microburst.py:132-144 | a bucket's tag told from the sorted samples: the first of p50, p90, p99 whose nearest-rank sample (rank n*percent/100 rounded up) it holds |
| Microburst.MedianTag | usecases/usecase_10_tail_latency_microburst.py:129-144 | exactly one non-empty bucket is tagged p50: that of the ceil(n/2)-th smallest sample; the reported median is never in a later bucket, and in the same one exactly if n is even or the sample before it (0 ns for n = 1) shares that bucket |
| Microburst.MedianAgreesIff | usecases/usecase_10_tail_latency_microburst.py:123-145 | tag and reported median agree on every history of n samples if and only if n is even |
| Worker.Execute | steve/orchestrator/worker.py:37-123 | write k goes to base + k*stride with the closed-form payload of op k; exactly the writes before the first failure are recorded; the report names node and core and carries their number, byte sum and the 0.50, 0.90, 0.99 and 0.999 percentiles, which are in order |
| Worker.Accounting | steve/orchestrator/worker.py:111-123 | recorded ops equal completed writes, recorded bytes the sum of their answers, and the buckets hold every op |
| Worker.ErrorFreeOps | steve/orchestrator/worker.py:76-97 | an error is reported exactly if some write failed, with the ops before it; otherwise the ops are a positive multiple of the queue depth |
| Worker.RunSimulatedNodeWorker | deploy/emulator/cluster_runner.py:20-75 | same walk with accumulating payloads and the same report; a result is reported exactly if no write fails and no seed passes 2^64 |
| FleetRun.FleetInvariant | steve/orchestrator/worker.py:80-89 | every interleaving of engine or emulator workers keeps offsets, payload buffers, stored bytes and the write log in step with the op counts |
| FleetRun.WorkersWalkTheirShards | steve/orchestrator/worker.py:53-89 | in every run a worker's offset is base + ops*stride, its attempted writes are those of its program running alone, and it is refused only when its seed has run out |
| FleetRun.WritesAreDisjoint | steve/orchestrator/cluster.py:48-49 | no two attempted writes of a run overlap, across workers and ops, failed ones included |
| FleetRun.CompletedBlocksIntact | steve/orchestrator/cluster.py:48-49 | in every run a completed block holds the planned bytes, whatever other workers do or leave half-written; nothing else is written but blocks being attempted |
| FleetRun.EveryInterleavingTiles | steve/orchestrator/cluster.py:37-63 | an interleaving of m turns per worker happens if and only if no seed runs out (never for the engine); then the stored region is exactly [0, m*N*block) and every byte is the closed-form one of core b mod N, op b div N + 1 |
| FleetRun.ScheduleIndependence | deploy/emulator/cluster_runner.py:130-149 | schedules with equal turn counts are equally possible and leave identical storage |
| FleetRun.FleetPayloadsEqualIff | steve/orchestrator/worker.py:83 | ops of two engine workers write the same whole word exactly when both are even, or one is even and the odd one's seed is the mutator's key |
| NodeNames.NamesInjective | deploy/emulator/cluster_runner.py:102 | different node numbers have different names, plain or zero-padded to two digits |
| NodeNames.NamesAreNumbers | deploy/emulator/cluster_runner.py:102 | a name is "node-" and decimal digits that mean the node number, without leading zeros but for the one padded to a single digit |
| Barrier.ClusterSyncServicer.SignalReady | steve/orchestrator/sync.py:27-37 | an announcement adds the id once and, with enough ids, raises the flag and sets the start time to the clock plus the lead time; otherwise both stay |
| Barrier.BarrierSafety | steve/orchestrator/sync.py:27-45 | in every run the flag is up exactly when enough distinct ids announced, nobody returns before, and it stays up |
| Barrier.NoEarlyReturn | steve/orchestrator/sync.py:39-45 | if any caller has returned, at least the expected number of distinct ids had announced |
| Barrier.StartIsLeadAfterLastAnnouncement | steve/orchestrator/sync.py:33-45 | in every run an open barrier's start time is the lead time after the last announcement, and a caller that wakes gets exactly that |
| Barrier.AgreementIff | steve/orchestrator/sync.py:27-45 | all returned callers agree on the start time in every run if and only if no caller is spare: without it the others bring fewer distinct ids than expected, or there are no others |
| Barrier.AgreementOnceOpen | steve/orchestrator/sync.py:33-45 | once open and before anyone returns, every continuation gives all callers one start time exactly if nobody is left to announce |
| Barrier.StepsAreBounded | steve/orchestrator/sync.py:27-45 | each step uses up one of the pending arrivals and wakes |
| Barrier.CompletionIff | steve/orchestrator/sync.py:33-40 | a run that can go no further has returned every caller exactly if the callers bring enough distinct ids or there are none |
| Barrier.LaterReturnsLaterStart | steve/orchestrator/sync.py:35-45 | in every run with a clock that does not run backwards, later returns carry start times no smaller than earlier ones |
| Barrier.GatherCompletes | deploy/emulator/cluster_runner.py:114-120 | every schedule of the emulator's gather takes at most 2N steps, ends with all N callers returned, and all returned start times are equal |
| KvCache.Decode | usecases/usecase_06_ai_kv_cache_checkpointing.py:83-102 | token k writes the XOR of all masks so far to page 37k mod n; a failing write or a token past 2^64 is raised, with exactly the writes before it recorded |
| KvCache.PagesFillContext | usecases/usecase_06_ai_kv_cache_checkpointing.py:91-96 | the walk uses as many whole pages as fit into the larger of prefill size and one page |
| KvCache.TokenPlace | usecases/usecase_06_ai_kv_cache_checkpointing.py:96-98 | token k is written to the page that 37k leaves after whole rounds through the pages that fit |
| KvCache.FullCycle | usecases/usecase_06_ai_kv_cache_checkpointing.py:96 | unless 37 divides n, any n consecutive steps visit every page exactly once |
| KvCache.ShortCycle | usecases/usecase_06_ai_kv_cache_checkpointing.py:96 | if 37 divides n, they visit exactly the n/37 multiples of 37 |
| KvCache.WritesStayInside | usecases/usecase_06_ai_kv_cache_checkpointing.py:91-98 | every write stays inside the context region, for any prefill size |
| QuerySplit.SplitQueries | usecases/usecase_05_ai_vector_s3.py:88-94 | the loop spawns the specified ranges |
| QuerySplit.SplitIsPartition | usecases/usecase_05_ai_vector_s3.py:88-94 | each query below max(q, c-1) is in exactly one range and no other is in any; exactly the q queries are covered iff q >= c-1; below c queries the ranges are c-1 single queries |
| QuerySplit.RangesAreEven | usecases/usecase_05_ai_vector_s3.py:88-94 | with q >= c every worker gets floor(q/c) consecutive queries, and the last one fewer than c more |
| Chaos.CalculateHashUniformity | usecases/usecase_08_chaos_node_failure.py:22-34 | the loops compute the chi-squared score of the bucket counts, which is (B/n)*sum of squared counts - n, and its rating against 2B |
| Chaos.BucketHoldsRemainder | usecases/usecase_08_chaos_node_failure.py:26-29 | bucket b counts exactly the seeds with remainder b |
| Chaos.ChiSquaredIdentity | usecases/usecase_08_chaos_node_failure.py:26-31 | the score is (B/n)*sum of squared counts - n, between 0 and n*(B-1), and 0 exactly for equal counts |
| Chaos.RunChaosSimulation | usecases/usecase_08_chaos_node_failure.py:37-155 | rebalancing yields the fleet over the kept nodes, healing restores the initial map, and the integrity check passes for every input |
| Chaos.NodeProfiles | usecases/usecase_08_chaos_node_failure.py:51-61 | names count up; the mixed topology starts with 16 cores and cycles 16, 8, 4; the uniform one has equal nodes |
| Chaos.TopologyCores | usecases/usecase_08_chaos_node_failure.py:63-65 | the first k nodes have k times the given cores, or 28 for every three and 16 or 24 for the rest |
| Chaos.EvictedAreTheRest | usecases/usecase_08_chaos_node_failure.py:64-101 | the announced evictions are the nodes left out exactly when not all nodes fail; if all fail, one node is kept |

`FleetRun` speaks of any plan, so its results hold again for the plan over the surviving nodes.

## Left out

- Duplicate detection, negative core counts, offsets and latencies: counts, offsets and latencies are naturals.
- Sharding.GenerateClusterShards: the run seed is a natural number; a negative Python integer has no model here.
- Mutator.PayloadMutator.constructor: mmap, page alignment and ctypes addresses; the base address is a parameter.
- Microburst.RunMicroburst: the offsets of its writes and the buffers they come from; negative counts, which act like 0.
- KvCache.Decode: the prefill and checkpoint phases around it.
- Barrier.ClusterSyncServicer.SignalReady: rounding of the float clock to whole microseconds; the clock is an integer parameter.
- Storage adapters, io_uring, S3 and vector drivers: operating system behaviour outside the repository.
- Buffer pool, evaluator, eBPF probe and master aggregation: index arithmetic, one comparison and sums.
- Throughput in Gbps, wall-clock durations, entropy and compression measurements: empirical.
- Logging, exception mapping, reports, command lines, Prometheus export, deployment files: text and configuration.
