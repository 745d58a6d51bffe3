/** The deterministic shard generator: global core numbering, per-core seed, base offset and
    stride, and what the map it returns covers. */
module Sharding {
  import opened SplitMix

  datatype Node = Node(id: string, cores: nat)

  /** The arguments of one call of the generator. */
  datatype Plan = Plan(globalSeed: nat, nodes: seq<Node>, targetBps: int, blockSize: nat)

  datatype ShardSpec = ShardSpec(
    nodeId: string,
    coreId: nat,
    seed: nat,
    baseOffset: nat,
    stride: nat,
    blockSize: nat,
    targetBps: int)

  /** Cores of the first `k` nodes, which is also the global number of node `k`'s first core. */
  function CoresBefore(nodes: seq<Node>, k: nat): nat
    requires k <= |nodes|
  {
    if k == 0 then 0 else CoresBefore(nodes, k - 1) + nodes[k - 1].cores
  }

  function TotalCores(nodes: seq<Node>): nat {
    CoresBefore(nodes, |nodes|)
  }

  /** Python's floor division; the divisor is never negative here. */
  function PerCoreBps(targetBps: int, totalCores: nat): int {
    if totalCores == 0 then 0 else targetBps / totalCores
  }

  function CoreShard(plan: Plan, nodeId: string, localCore: nat, index: nat): ShardSpec {
    var total := TotalCores(plan.nodes);
    ShardSpec(nodeId, localCore, WorkerSeed(plan.globalSeed, index), index * plan.blockSize,
              total * plan.blockSize, plan.blockSize, PerCoreBps(plan.targetBps, total))
  }

  function NodeShards(plan: Plan, k: nat): (s: seq<ShardSpec>)
    requires k < |plan.nodes|
    ensures |s| == plan.nodes[k].cores
  {
    seq(plan.nodes[k].cores, c requires 0 <= c < plan.nodes[k].cores => CoreShard(plan, plan.nodes[k].id, c, CoresBefore(plan.nodes, k) + c))
  }

  /** The map after the first `k` nodes: a repeated id overwrites the earlier entry. */
  function ShardMap(plan: Plan, k: nat): map<string, seq<ShardSpec>>
    requires k <= |plan.nodes|
  {
    if k == 0 then map[] else ShardMap(plan, k - 1)[plan.nodes[k - 1].id := NodeShards(plan, k - 1)]
  }

  method GenerateClusterShards(plan: Plan) returns (shards: map<string, seq<ShardSpec>>)
    ensures shards == ShardMap(plan, |plan.nodes|)
    ensures forall id, c :: id in shards && 0 <= c < |shards[id]| ==> shards[id][c].nodeId == id && shards[id][c].coreId == c
  {
    hide WorkerSeed;
    var totalCores := 0;
    for k := 0 to |plan.nodes|
      invariant totalCores == CoresBefore(plan.nodes, k)
    {
      totalCores := totalCores + plan.nodes[k].cores;
    }
    var perCore := if totalCores > 0 then plan.targetBps / totalCores else 0;

    shards := map[];
    var globalCoreIndex := 0;
    for k := 0 to |plan.nodes|
      invariant globalCoreIndex == CoresBefore(plan.nodes, k)
      invariant shards == ShardMap(plan, k)
    {
      var node := plan.nodes[k];
      var nodeShards := [];
      for localCore := 0 to node.cores
        invariant globalCoreIndex == CoresBefore(plan.nodes, k) + localCore
        invariant nodeShards == NodeShards(plan, k)[..localCore]
      {
        var seed := WorkerSeed(plan.globalSeed, globalCoreIndex);
        nodeShards := nodeShards + [ShardSpec(node.id, localCore, seed, globalCoreIndex * plan.blockSize,
                                              totalCores * plan.blockSize, plan.blockSize, perCore)];
        assert nodeShards[localCore] == CoreShard(plan, node.id, localCore, globalCoreIndex);
        globalCoreIndex := globalCoreIndex + 1;
      }
      assert nodeShards == NodeShards(plan, k);
      shards := shards[node.id := nodeShards];
    }
    forall id, c: nat | id in shards && c < |shards[id]| ensures shards[id][c].nodeId == id && shards[id][c].coreId == c {
      MappedShard(plan, id, c);
    }
  }

  // ----- what the map covers -----

  ghost predicate DistinctIds(nodes: seq<Node>) {
    forall j, k :: 0 <= j < k < |nodes| ==> nodes[j].id != nodes[k].id
  }

  /** The last of the first `n` nodes that carries `id`, or -1. */
  function LastIndex(nodes: seq<Node>, n: nat, id: string): (k: int)
    requires n <= |nodes|
    ensures -1 <= k < n
    ensures k >= 0 ==> nodes[k].id == id
    ensures forall j :: k < j < n ==> nodes[j].id != id
  {
    if n == 0 then -1 else if nodes[n - 1].id == id then n - 1 else LastIndex(nodes, n - 1, id)
  }

  /** Each id is bound to the shards of the last node that carries it, and nothing else is bound. */
  lemma {:induction false} ShardMapLookup(plan: Plan, n: nat, id: string)
    requires n <= |plan.nodes|
    ensures id in ShardMap(plan, n) <==> LastIndex(plan.nodes, n, id) >= 0
    ensures id in ShardMap(plan, n) ==> ShardMap(plan, n)[id] == NodeShards(plan, LastIndex(plan.nodes, n, id))
  {
    hide NodeShards;
    if n > 0 {
      ShardMapLookup(plan, n - 1, id);
    }
  }

  /** What the map binds to an id: one shard for each core of the last node `k` that carries it. Core
      `c` keeps its local number; its global number, after all cores of the nodes before, determines
      seed and base; stride and throughput share come from the whole fleet. */
  lemma MappedShard(plan: Plan, id: string, c: nat)
    requires id in ShardMap(plan, |plan.nodes|) && c < |ShardMap(plan, |plan.nodes|)[id]|
    ensures var k := LastIndex(plan.nodes, |plan.nodes|, id);
            var spec := ShardMap(plan, |plan.nodes|)[id][c];
            && k >= 0
            && var global, all := CoresBefore(plan.nodes, k) + c, TotalCores(plan.nodes);
            && plan.nodes[k].id == id && |ShardMap(plan, |plan.nodes|)[id]| == plan.nodes[k].cores
            && spec.nodeId == id
            && spec.coreId == c
            && spec.seed == WorkerSeed(plan.globalSeed, global)
            && spec.baseOffset == global * plan.blockSize
            && spec.stride == all * plan.blockSize
            && spec.blockSize == plan.blockSize
            && spec.targetBps * all <= plan.targetBps < spec.targetBps * all + all
  {
    hide WorkerSeed;
    hide CoresBefore;
    hide ShardMap;
    hide NodeShards;
    var k := LastIndex(plan.nodes, |plan.nodes|, id);
    ShardMapLookup(plan, |plan.nodes|, id);
    NodeShardAt(plan, k, c);
    CoresBeforeStep(plan.nodes, k);
    CoresBeforeMonotone(plan.nodes, k + 1, |plan.nodes|);
    FloorShare(plan.targetBps, TotalCores(plan.nodes));
  }

  lemma FloorShare(target: int, all: nat)
    requires all > 0
    ensures PerCoreBps(target, all) * all <= target < PerCoreBps(target, all) * all + all
  {
    assert target == target / all * all + target % all;
  }

  lemma {:induction false} CoresBeforeMonotone(nodes: seq<Node>, j: nat, k: nat)
    requires j <= |nodes| && k <= |nodes|
    ensures j <= k ==> CoresBefore(nodes, j) <= CoresBefore(nodes, k)
    decreases k
  {
    if j < k {
      CoresBeforeMonotone(nodes, j, k - 1);
    }
  }

  /** The node that owns global core `index`. */
  function Owner(nodes: seq<Node>, index: nat, k: nat): (owner: nat)
    requires k <= |nodes| && index < CoresBefore(nodes, k)
    ensures owner < k && CoresBefore(nodes, owner) <= index < CoresBefore(nodes, owner + 1)
  {
    if index >= CoresBefore(nodes, k - 1) then k - 1 else Owner(nodes, index, k - 1)
  }

  ghost predicate Handed(plan: Plan, shards: map<string, seq<ShardSpec>>, index: nat) {
    exists id, c :: id in shards && 0 <= c < |shards[id]| && shards[id][c].baseOffset == index * plan.blockSize
  }

  /** A core is lost when its node's id comes again later in the topology. */
  ghost predicate NoCoreLost(nodes: seq<Node>) {
    forall j, k :: 0 <= j < k < |nodes| && nodes[j].id == nodes[k].id ==> nodes[j].cores == 0
  }

  lemma HandedWhenNoCoreLost(plan: Plan, i: nat)
    requires NoCoreLost(plan.nodes) && i < TotalCores(plan.nodes)
    ensures Handed(plan, ShardMap(plan, |plan.nodes|), i)
  {
    hide NodeShards;
    hide ShardMap;
    var nodes := plan.nodes;
    var k := Owner(nodes, i, |nodes|);
    ShardMapLookup(plan, |nodes|, nodes[k].id);
    assert LastIndex(nodes, |nodes|, nodes[k].id) == k;
    NodeShardBase(plan, k, i - CoresBefore(nodes, k));
  }

  lemma NotHandedWhenLost(plan: Plan, j: nat, k: nat)
    requires plan.blockSize > 0
    requires j < k < |plan.nodes| && plan.nodes[j].id == plan.nodes[k].id && plan.nodes[j].cores > 0
    ensures CoresBefore(plan.nodes, j) < TotalCores(plan.nodes)
    ensures !Handed(plan, ShardMap(plan, |plan.nodes|), CoresBefore(plan.nodes, j))
  {
    hide NodeShards;
    hide ShardMap;
    hide CoresBefore;
    var i := CoresBefore(plan.nodes, j);
    var shards: map<string, seq<ShardSpec>> := ShardMap(plan, |plan.nodes|);
    CoresBeforeStep(plan.nodes, j);
    CoresBeforeMonotone(plan.nodes, j + 1, |plan.nodes|);
    forall id: string, c: int | id in shards && 0 <= c < |shards[id]|
      ensures shards[id][c].baseOffset != i * plan.blockSize
    {
      ShardMapLookup(plan, |plan.nodes|, id);
      FirstBlockOwner(plan, LastIndex(plan.nodes, |plan.nodes|, id), c, j);
    }
  }

  /** The returned map starts a worker on every one of the N first blocks exactly when no
      node that has cores is followed by another node of the same id. */
  lemma MapCoversFleetIff(plan: Plan)
    requires plan.blockSize > 0
    ensures (forall i :: 0 <= i < TotalCores(plan.nodes) ==> Handed(plan, ShardMap(plan, |plan.nodes|), i))
            <==> NoCoreLost(plan.nodes)
  {
    hide Handed;
    if NoCoreLost(plan.nodes) {
      forall i | 0 <= i < TotalCores(plan.nodes) ensures Handed(plan, ShardMap(plan, |plan.nodes|), i) {
        HandedWhenNoCoreLost(plan, i);
      }
    } else {
      var j, k :| 0 <= j < k < |plan.nodes| && plan.nodes[j].id == plan.nodes[k].id && plan.nodes[j].cores != 0;
      NotHandedWhenLost(plan, j, k);
    }
  }

  lemma NodeShardBase(plan: Plan, k: nat, c: nat)
    requires k < |plan.nodes| && c < plan.nodes[k].cores
    ensures NodeShards(plan, k)[c].baseOffset == (CoresBefore(plan.nodes, k) + c) * plan.blockSize
  {
    hide *;
    NodeShardAt(plan, k, c);
    CoreShardBase(plan, plan.nodes[k].id, c, CoresBefore(plan.nodes, k) + c);
  }

  lemma CoreShardBase(plan: Plan, nodeId: string, localCore: nat, index: nat)
    ensures CoreShard(plan, nodeId, localCore, index).baseOffset == index * plan.blockSize
  {
    hide WorkerSeed;
  }

  lemma CoresBeforeStep(nodes: seq<Node>, k: nat)
    requires k < |nodes|
    ensures CoresBefore(nodes, k + 1) == CoresBefore(nodes, k) + nodes[k].cores
  {
  }

  /** Only node `j` itself can hand out the first block of node `j`. */
  lemma FirstBlockOwner(plan: Plan, m: nat, c: nat, j: nat)
    requires plan.blockSize > 0
    requires m < |plan.nodes| && c < plan.nodes[m].cores && j < |plan.nodes| && plan.nodes[j].cores > 0
    ensures NodeShards(plan, m)[c].baseOffset == CoresBefore(plan.nodes, j) * plan.blockSize ==> m == j
  {
    hide NodeShards;
    NodeShardBase(plan, m, c);
    var a, b := CoresBefore(plan.nodes, m) + c, CoresBefore(plan.nodes, j);
    if a * plan.blockSize == b * plan.blockSize {
      SameMultiple(a, b, plan.blockSize);
      OneOwner(plan.nodes, b, j, m);
    }
  }

  lemma SameMultiple(a: nat, b: nat, m: nat)
    requires m > 0 && a * m == b * m
    ensures a == b
  {
    assert (a - b) * m == 0;
  }

  lemma OneOwner(nodes: seq<Node>, index: nat, j: nat, k: nat)
    requires j < |nodes| && k < |nodes|
    requires CoresBefore(nodes, j) <= index < CoresBefore(nodes, j + 1)
    requires CoresBefore(nodes, k) <= index < CoresBefore(nodes, k + 1)
    ensures j == k
  {
    CoresBeforeMonotone(nodes, j + 1, k);
    CoresBeforeMonotone(nodes, k + 1, j);
  }

  // ----- the flat list of all workers -----

  /** All shards in global core order. */
  function AllShards(plan: Plan, k: nat): seq<ShardSpec>
    requires k <= |plan.nodes|
  {
    if k == 0 then [] else AllShards(plan, k - 1) + NodeShards(plan, k - 1)
  }

  function Fleet(plan: Plan): seq<ShardSpec> {
    AllShards(plan, |plan.nodes|)
  }

  /** `[s for node_shards in shards.values() for s in node_shards]`, in node order. */
  function Flatten(shards: map<string, seq<ShardSpec>>, nodes: seq<Node>): seq<ShardSpec>
    requires forall k :: 0 <= k < |nodes| ==> nodes[k].id in shards
  {
    if nodes == [] then [] else Flatten(shards, nodes[..|nodes| - 1]) + shards[nodes[|nodes| - 1].id]
  }

  /** With distinct ids the map holds the fleet: flattening it gives every worker, in core order. */
  lemma {:induction false} FlattenedMap(plan: Plan, n: nat)
    requires n <= |plan.nodes| && DistinctIds(plan.nodes)
    ensures forall k :: 0 <= k < n ==> plan.nodes[k].id in ShardMap(plan, |plan.nodes|)
    ensures Flatten(ShardMap(plan, |plan.nodes|), plan.nodes[..n]) == AllShards(plan, n)
  {
    hide NodeShards;
    hide ShardMap;
    if n > 0 {
      FlattenedMap(plan, n - 1);
      assert plan.nodes[..n][..n - 1] == plan.nodes[..n - 1];
      ShardMapLookup(plan, |plan.nodes|, plan.nodes[n - 1].id);
      assert LastIndex(plan.nodes, |plan.nodes|, plan.nodes[n - 1].id) == n - 1;
    }
  }

  /** The worker with global number `i` has seed hash(i), block `i` as its first block and N blocks as its stride. */
  lemma {:induction false} ShardAt(plan: Plan, k: nat, i: nat)
    requires k <= |plan.nodes|
    ensures |AllShards(plan, k)| == CoresBefore(plan.nodes, k)
    ensures i < CoresBefore(plan.nodes, k) ==>
              var n := Owner(plan.nodes, i, k);
              AllShards(plan, k)[i] == CoreShard(plan, plan.nodes[n].id, i - CoresBefore(plan.nodes, n), i)
  {
    hide CoreShard;
    hide NodeShards;
    if k > 0 {
      var before := CoresBefore(plan.nodes, k - 1);
      ShardAt(plan, k - 1, i);
      if i < before {
        assert AllShards(plan, k)[i] == AllShards(plan, k - 1)[i];
      } else if i < CoresBefore(plan.nodes, k) {
        NodeShardAt(plan, k - 1, i - before);
        assert AllShards(plan, k)[i] == NodeShards(plan, k - 1)[i - before];
      }
    }
  }

  lemma NodeShardAt(plan: Plan, k: nat, c: nat)
    requires k < |plan.nodes| && c < plan.nodes[k].cores
    ensures NodeShards(plan, k)[c] == CoreShard(plan, plan.nodes[k].id, c, CoresBefore(plan.nodes, k) + c)
  {
    hide CoreShard;
  }

  lemma SeedAt(plan: Plan, i: nat)
    requires i < TotalCores(plan.nodes)
    ensures |Fleet(plan)| == TotalCores(plan.nodes)
    ensures Fleet(plan)[i].seed == WorkerSeed(plan.globalSeed, i)
  {
    hide WorkerSeed;
    hide AllShards;
    ShardAt(plan, |plan.nodes|, i);
  }

  /** No two workers of a run share a seed, for any run seed and up to 2^64 cores. */
  lemma FleetSeedsDistinct(plan: Plan, i: nat, j: nat)
    requires i < j < TotalCores(plan.nodes) <= Bits.WORD_SIZE
    ensures |Fleet(plan)| == TotalCores(plan.nodes)
    ensures Fleet(plan)[i].seed != Fleet(plan)[j].seed
  {
    hide WorkerSeed;
    hide Fleet;
    SeedAt(plan, i);
    SeedAt(plan, j);
    SeedsCollideIff(plan.globalSeed, i, j);
  }

  // ----- eviction and recovery -----

  lemma {:induction false} PrefixCores(nodes: seq<Node>, p: nat, k: nat)
    requires k <= p <= |nodes|
    ensures CoresBefore(nodes[..p], k) == CoresBefore(nodes, k)
  {
    if k > 0 {
      PrefixCores(nodes, p, k - 1);
    }
  }

  lemma {:induction false} PrefixOwner(nodes: seq<Node>, p: nat, k: nat, i: nat)
    requires p <= k <= |nodes| && i < CoresBefore(nodes, p)
    ensures i < CoresBefore(nodes, k) && i < CoresBefore(nodes[..p], p)
    ensures Owner(nodes, i, k) == Owner(nodes[..p], i, p)
    decreases k
  {
    CoresBeforeMonotone(nodes, p, k);
    PrefixCores(nodes, p, p);
    if p < k {
      CoresBeforeMonotone(nodes, p, k - 1);
      PrefixOwner(nodes, p, k - 1, i);
    } else {
      var a, b := Owner(nodes, i, k), Owner(nodes[..p], i, p);
      PrefixCores(nodes, p, b);
      PrefixCores(nodes, p, b + 1);
      OneOwner(nodes, i, a, b);
    }
  }

  function Survivors(plan: Plan, p: nat): Plan
    requires p <= |plan.nodes|
  {
    plan.(nodes := plan.nodes[..p])
  }

  /** Evicting the tail of the node list changes nothing about a surviving worker except its
      stride and its throughput share: id, core, seed, base offset and block size all stay. */
  lemma EvictionKeepsSurvivors(plan: Plan, p: nat, i: nat)
    requires p <= |plan.nodes| && i < CoresBefore(plan.nodes, p)
    ensures i < |Fleet(Survivors(plan, p))| == CoresBefore(plan.nodes, p) <= |Fleet(plan)|
    ensures Fleet(Survivors(plan, p))[i] == Fleet(plan)[i].(
              stride := CoresBefore(plan.nodes, p) * plan.blockSize,
              targetBps := PerCoreBps(plan.targetBps, CoresBefore(plan.nodes, p)))
  {
    hide WorkerSeed;
    hide AllShards;
    hide CoresBefore;
    hide Owner;
    var few := Survivors(plan, p);
    CoresBeforeMonotone(plan.nodes, p, |plan.nodes|);
    PrefixCores(plan.nodes, p, p);
    PrefixOwner(plan.nodes, p, |plan.nodes|, i);
    ShardAt(plan, |plan.nodes|, i);
    ShardAt(few, p, i);
    PrefixCores(plan.nodes, p, Owner(few.nodes, i, p));
  }

  /** Survivors carry at least their old share; the shares add up to the target but for a
      remainder of less than one unit per core. */
  lemma EvictionThroughput(plan: Plan, p: nat)
    requires p <= |plan.nodes| && CoresBefore(plan.nodes, p) > 0 && plan.targetBps >= 0
    ensures var few, all := CoresBefore(plan.nodes, p), TotalCores(plan.nodes);
            var share := PerCoreBps(plan.targetBps, few);
            && few <= all
            && PerCoreBps(plan.targetBps, all) <= share
            && share * few <= plan.targetBps < share * few + few
  {
    CoresBeforeMonotone(plan.nodes, p, |plan.nodes|);
    ShareBounds(plan.targetBps, CoresBefore(plan.nodes, p), TotalCores(plan.nodes));
  }

  lemma ShareBounds(target: nat, few: nat, all: nat)
    requires 0 < few <= all
    ensures (target / few) * few <= target < (target / few) * few + few
    ensures target / all <= target / few
  {
    var share := target / few;
    assert share * few <= target < (share + 1) * few <= (share + 1) * all;
    QuotientBound(target, all, share + 1);
  }

  lemma QuotientBound(n: nat, d: nat, q: nat)
    requires d > 0 && n < q * d
    ensures n / d < q
  {
    assert (n / d) * d <= n;
    assert (q - n / d) * d > 0;
  }
}
