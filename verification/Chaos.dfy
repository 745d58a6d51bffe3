/** The chaos experiment: the chi-squared score of the worker seeds, and the evict, rebalance, heal
    sequence over the shard generator. */
module Chaos {
  import opened SplitMix
  import opened Sharding
  import opened NodeNames

  // ----- the uniformity score -----

  datatype Status = Perfect | Excellent | Adequate

  function BucketCount(seeds: seq<nat>, buckets: nat, b: nat): nat
    requires buckets > 0
  {
    if seeds == [] then 0
    else BucketCount(seeds[..|seeds| - 1], buckets, b) + (if seeds[|seeds| - 1] % buckets == b then 1 else 0)
  }

  function BucketCounts(seeds: seq<nat>, buckets: nat): (c: seq<nat>)
    requires buckets > 0
    ensures |c| == buckets
  {
    seq(buckets, b requires 0 <= b < buckets => BucketCount(seeds, buckets, b))
  }

  function Product(x: real, y: real): real {
    x * y
  }

  function Square(x: real): real {
    Product(x, x)
  }

  /** (count - expected)^2 / expected */
  function Deviation(count: nat, expected: real): real
    requires expected > 0.0
  {
    Square(count as real - expected) / expected
  }

  /** Sum of the deviations of the first `k` buckets. */
  function ChiSquared(counts: seq<nat>, expected: real, k: nat): real
    requires expected > 0.0 && k <= |counts|
  {
    if k == 0 then 0.0
    else
      ChiSquared(counts, expected, k - 1) + Deviation(counts[k - 1], expected)
  }

  function Total(counts: seq<nat>, k: nat): nat
    requires k <= |counts|
  {
    if k == 0 then 0 else Total(counts, k - 1) + counts[k - 1]
  }

  function Squares(counts: seq<nat>, k: nat): nat
    requires k <= |counts|
  {
    if k == 0 then 0 else Squares(counts, k - 1) + counts[k - 1] * counts[k - 1]
  }

  method CountSeeds(seeds: seq<nat>, numBuckets: nat) returns (counts: array<nat>)
    requires numBuckets > 0
    ensures counts[..] == BucketCounts(seeds, numBuckets)
  {
    counts := new nat[numBuckets](_ => 0);
    for i := 0 to |seeds|
      invariant forall b :: 0 <= b < numBuckets ==> counts[b] == BucketCount(seeds[..i], numBuckets, b)
    {
      assert seeds[..i + 1][..i] == seeds[..i];
      var idx := seeds[i] % numBuckets;
      counts[idx] := counts[idx] + 1;
    }
    assert seeds[..|seeds|] == seeds;
  }

  method CalculateHashUniformity(seeds: seq<nat>, numBuckets: nat) returns (chi: real, status: Status)
    requires numBuckets > 0
    ensures seeds == [] ==> chi == 0.0 && status == Perfect
    ensures seeds != [] ==> chi == ChiSquared(BucketCounts(seeds, numBuckets), |seeds| as real / numBuckets as real, numBuckets)
    ensures seeds != [] ==> chi == numBuckets as real / |seeds| as real * Squares(BucketCounts(seeds, numBuckets), numBuckets) as real - |seeds| as real
    ensures seeds != [] ==> status == if chi < (2 * numBuckets) as real then Excellent else Adequate
  {
    hide BucketCounts;
    if seeds == [] {
      return 0.0, Perfect;
    }
    var counts := CountSeeds(seeds, numBuckets);
    var expected := |seeds| as real / numBuckets as real;
    chi := 0.0;
    for b := 0 to numBuckets
      invariant counts[..] == BucketCounts(seeds, numBuckets)
      invariant chi == ChiSquared(counts[..], expected, b)
    {
      chi := chi + Deviation(counts[b], expected);
    }
    ChiSquaredIdentity(seeds, numBuckets);
    status := if chi < (2 * numBuckets) as real then Excellent else Adequate;
  }

  predicate Leaves(seed: nat, buckets: nat, b: nat)
    requires buckets > 0
  {
    seed % buckets == b
  }

  function Hits(seeds: seq<nat>, buckets: nat, b: nat): set<nat>
    requires buckets > 0
  {
    set i: nat | i < |seeds| && Leaves(seeds[i], buckets, b)
  }

  lemma {:induction false} CountIsHits(seeds: seq<nat>, buckets: nat, b: nat)
    requires buckets > 0
    ensures BucketCount(seeds, buckets, b) == |Hits(seeds, buckets, b)|
  {
    if seeds == [] {
      assert Hits(seeds, buckets, b) == {};
    } else {
      var n := |seeds| - 1;
      CountIsHits(seeds[..n], buckets, b);
      OneMoreSeed(seeds, buckets, b);
    }
  }

  lemma OneMoreSeed(seeds: seq<nat>, buckets: nat, b: nat)
    requires buckets > 0 && seeds != []
    ensures var n := |seeds| - 1;
            && n !in Hits(seeds[..n], buckets, b)
            && Hits(seeds, buckets, b) == Hits(seeds[..n], buckets, b) + (if Leaves(seeds[n], buckets, b) then {n} else {})
  {
    hide Leaves;
    var n := |seeds| - 1;
    assert forall i :: 0 <= i < n ==> seeds[..n][i] == seeds[i];
  }

  /** Bucket `b` counts the seeds that leave remainder `b`. */
  lemma BucketHoldsRemainder(seeds: seq<nat>, buckets: nat, b: nat)
    requires buckets > 0
    ensures BucketCount(seeds, buckets, b) == |set i | 0 <= i < |seeds| && seeds[i] % buckets == b|
  {
    hide BucketCount;
    CountIsHits(seeds, buckets, b);
    assert Hits(seeds, buckets, b) == set i | 0 <= i < |seeds| && seeds[i] % buckets == b;
  }

  lemma {:induction false} TotalOfSeeds(seeds: seq<nat>, buckets: nat)
    requires buckets > 0
    ensures Total(BucketCounts(seeds, buckets), buckets) == |seeds|
  {
    if seeds == [] {
      TotalStep(BucketCounts(seeds, buckets), BucketCounts(seeds, buckets), buckets, buckets);
      TotalZero(BucketCounts(seeds, buckets), buckets);
    } else {
      var init := seeds[..|seeds| - 1];
      TotalOfSeeds(init, buckets);
      TotalStep(BucketCounts(init, buckets), BucketCounts(seeds, buckets), seeds[|seeds| - 1] % buckets, buckets);
    }
  }

  lemma {:induction false} TotalZero(counts: seq<nat>, k: nat)
    requires k <= |counts| && forall b :: 0 <= b < |counts| ==> counts[b] == 0
    ensures Total(counts, k) == 0
  {
    if k > 0 {
      TotalZero(counts, k - 1);
    }
  }

  lemma {:induction false} TotalStep(before: seq<nat>, after: seq<nat>, hit: nat, k: nat)
    requires |before| == |after| && k <= |after|
    requires forall b :: 0 <= b < |after| ==> after[b] == before[b] + (if b == hit then 1 else 0)
    ensures Total(after, k) == Total(before, k) + (if hit < k then 1 else 0)
  {
    if k > 0 {
      TotalStep(before, after, hit, k - 1);
    }
  }

  /** The sum of (c - e)^2 over k counts c with the given total and sum of squares. */
  function Spread(squares: real, total: real, e: real, k: real): real {
    squares - 2.0 * e * total + k * e * e
  }

  lemma SpreadSum(q: real, t: real, k: real, c: real, e: real)
    ensures Spread(q + Square(c), t + c, e, k + 1.0) == Spread(q, t, e, k) + Spread(Square(c), c, e, 1.0)
  {
    hide Square;
    assert 2.0 * e * (t + c) == 2.0 * e * t + 2.0 * e * c;
    assert (k + 1.0) * e * e == k * e * e + 1.0 * e * e;
  }

  /** Multiplied by e, the score is a polynomial in the counts. */
  lemma {:induction false} ChiExpansion(counts: seq<nat>, e: real, k: nat)
    requires e > 0.0 && k <= |counts|
    ensures Product(ChiSquared(counts, e, k), e) == Spread(Squares(counts, k) as real, Total(counts, k) as real, e, k as real)
  {
    hide *;
    if k == 0 {
      NoBuckets(counts, e);
    } else {
      ChiExpansion(counts, e, k - 1);
      OneMoreBucket(counts, e, k);
      var c := counts[k - 1];
      Distribute(ChiSquared(counts, e, k - 1), Deviation(c, e), e);
      DeviationTimes(c, e);
      assert k as real == (k - 1) as real + 1.0;
      SpreadSum(Squares(counts, k - 1) as real, Total(counts, k - 1) as real, (k - 1) as real, c as real, e);
    }
  }

  lemma NoBuckets(counts: seq<nat>, e: real)
    requires e > 0.0
    ensures Product(ChiSquared(counts, e, 0), e) == Spread(Squares(counts, 0) as real, Total(counts, 0) as real, e, 0.0)
  {
  }

  lemma OneMoreBucket(counts: seq<nat>, e: real, k: nat)
    requires e > 0.0 && 0 < k <= |counts|
    ensures var c := counts[k - 1];
            && ChiSquared(counts, e, k) == ChiSquared(counts, e, k - 1) + Deviation(c, e)
            && Squares(counts, k) as real == Squares(counts, k - 1) as real + Square(c as real)
            && Total(counts, k) as real == Total(counts, k - 1) as real + c as real
  {
    hide Deviation;
    SquareAsReal(counts[k - 1]);
  }

  lemma SquareAsReal(c: nat)
    ensures (c * c) as real == Square(c as real)
  {
  }

  lemma Distribute(x: real, y: real, e: real)
    ensures Product(x + y, e) == Product(x, e) + Product(y, e)
  {
  }

  lemma DeviationTimes(c: nat, e: real)
    requires e > 0.0
    ensures Product(Deviation(c, e), e) == Spread(Square(c as real), c as real, e, 1.0)
    ensures c as real != e ==> Deviation(c, e) > 0.0
    ensures c as real == e ==> Deviation(c, e) == 0.0
  {
    hide Square;
    SquareSign(c as real - e);
    SquareOfDifference(c as real, e);
    QuotientSign(Square(c as real - e), e);
  }

  lemma ProductSign(x: real, y: real)
    ensures (x > 0.0 && y > 0.0) || (x < 0.0 && y < 0.0) ==> Product(x, y) > 0.0
    ensures x == 0.0 ==> Product(x, y) == 0.0
  {
  }

  lemma SquareSign(d: real)
    ensures d != 0.0 ==> Square(d) > 0.0
    ensures d == 0.0 ==> Square(d) == 0.0
  {
    hide Product;
    ProductSign(d, d);
  }

  lemma SquareOfDifference(x: real, y: real)
    ensures Square(x - y) == Spread(Square(x), x, y, 1.0)
  {
  }

  lemma QuotientSign(s: real, e: real)
    requires e > 0.0 && s >= 0.0
    ensures s / e * e == s
    ensures s > 0.0 ==> s / e > 0.0
    ensures s == 0.0 ==> s / e == 0.0
  {
  }

  lemma {:induction false} SquaresBound(counts: seq<nat>, k: nat)
    requires k <= |counts|
    ensures Squares(counts, k) <= Total(counts, k) * Total(counts, k)
  {
    if k > 0 {
      SquaresBound(counts, k - 1);
      SquareOfSum(Total(counts, k - 1), counts[k - 1]);
    }
  }

  lemma SquareOfSum(t: nat, c: nat)
    ensures t * t + c * c <= (t + c) * (t + c)
  {
    assert (t + c) * (t + c) == t * t + c * c + 2 * (t * c);
  }

  lemma {:induction false} TermBound(counts: seq<nat>, e: real, k: nat, i: nat)
    requires e > 0.0 && k <= |counts|
    ensures ChiSquared(counts, e, k) >= 0.0
    ensures i < k ==> ChiSquared(counts, e, k) >= Deviation(counts[i], e) >= 0.0
  {
    hide Deviation;
    if k > 0 {
      TermBound(counts, e, k - 1, i);
      DeviationTimes(counts[k - 1], e);
    }
  }

  lemma {:induction false} ChiZero(counts: seq<nat>, e: real, k: nat)
    requires e > 0.0 && k <= |counts|
    requires forall i :: 0 <= i < k ==> counts[i] as real == e
    ensures ChiSquared(counts, e, k) == 0.0
  {
    hide Deviation;
    if k > 0 {
      DeviationTimes(counts[k - 1], e);
      ChiZero(counts, e, k - 1);
    }
  }

  lemma {:induction false} TotalOfEqual(counts: seq<nat>, c: nat, k: nat)
    requires k <= |counts| && forall i :: 0 <= i < k ==> counts[i] == c
    ensures Total(counts, k) == k * c
  {
    if k > 0 {
      TotalOfEqual(counts, c, k - 1);
    }
  }

  ghost predicate AllEqual(counts: seq<nat>) {
    forall i, j :: 0 <= i < |counts| && 0 <= j < |counts| ==> counts[i] == counts[j]
  }

  /** For n seeds in B buckets the score is (B/n) * sum of squared counts - n. It lies between 0 and
      n*(B-1), and is 0 exactly when all buckets hold equally many seeds. */
  lemma ChiSquaredIdentity(seeds: seq<nat>, buckets: nat)
    requires seeds != [] && buckets > 0
    ensures var counts, n, b := BucketCounts(seeds, buckets), |seeds| as real, buckets as real;
            var chi := ChiSquared(counts, n / b, buckets);
            && Total(counts, buckets) == |seeds|
            && chi == b / n * Squares(counts, buckets) as real - n
            && 0.0 <= chi <= n * (b - 1.0)
            && (chi == 0.0 <==> AllEqual(counts))
  {
    hide BucketCounts;
    hide ChiSquared;
    hide Squares;
    hide Total;
    var counts, n, b := BucketCounts(seeds, buckets), |seeds| as real, buckets as real;
    var e := n / b;
    assert e * b == n;
    TotalOfSeeds(seeds, buckets);
    ChiExpansion(counts, e, buckets);
    SquaresBound(counts, buckets);
    assert Squares(counts, buckets) as real <= (|seeds| * |seeds|) as real == n * n;
    TermBound(counts, e, buckets, 0);
    ScaledSquares(ChiSquared(counts, e, buckets), Squares(counts, buckets) as real, n, b);
    ZeroIff(counts, e, buckets, |seeds|);
  }

  lemma ScaledSquares(chi: real, q: real, n: real, b: real)
    requires n > 0.0 && b > 0.0 && q <= n * n
    requires chi * (n / b) == q - 2.0 * (n / b) * n + b * (n / b) * (n / b)
    ensures chi == b / n * q - n
    ensures chi <= n * (b - 1.0)
  {
    var e, r := n / b, b / n;
    assert e * b == n && r * n == b;
    Reciprocal(e, r, n, b);
    calc {
      chi;
      chi * e * r;
      (q - 2.0 * e * n + b * e * e) * r;
      q * r - 2.0 * n * (e * r) + (b * e) * (e * r);
      r * q - n;
    }
    assert r * q <= r * (n * n) == (r * n) * n == b * n;
  }

  lemma Reciprocal(e: real, r: real, n: real, b: real)
    requires n > 0.0 && b > 0.0 && e * b == n && r * n == b
    ensures e * r == 1.0
    ensures r > 0.0
  {
    assert (e * r) * n == e * (r * n) == e * b;
    assert (e * r - 1.0) * n == 0.0;
  }

  lemma AllEqualMeansExpected(counts: seq<nat>, e: real, buckets: nat, n: nat)
    requires |counts| == buckets > 0 && e > 0.0 && e * buckets as real == n as real
    requires Total(counts, buckets) == n && AllEqual(counts)
    ensures forall i :: 0 <= i < buckets ==> counts[i] as real == e
  {
    hide Total;
    var c := counts[0];
    TotalOfEqual(counts, c, buckets);
    assert (buckets * c) as real == buckets as real * c as real;
    assert (c as real - e) * buckets as real == 0.0;
  }

  lemma ZeroIff(counts: seq<nat>, e: real, buckets: nat, n: nat)
    requires |counts| == buckets > 0 && e > 0.0 && e * buckets as real == n as real
    requires Total(counts, buckets) == n
    ensures ChiSquared(counts, e, buckets) == 0.0 <==> AllEqual(counts)
  {
    hide ChiSquared;
    hide Deviation;
    hide Total;
    if AllEqual(counts) {
      AllEqualMeansExpected(counts, e, buckets, n);
      ChiZero(counts, e, buckets);
    }
    if ChiSquared(counts, e, buckets) == 0.0 {
      forall i | 0 <= i < buckets ensures counts[i] as real == e {
        TermBound(counts, e, buckets, i);
        DeviationTimes(counts[i], e);
      }
    }
  }

  // ----- evict, rebalance, heal -----

  /** The initial topology; the heterogeneous one alternates 16, 8 and 4 cores. */
  function InitialNodes(count: nat, coresPerNode: nat, heterogeneous: bool): (nodes: seq<Node>)
    ensures |nodes| == count
  {
    seq(count, i requires 0 <= i < count =>
      Node(PlainName(i), if !heterogeneous then coresPerNode else if i % 3 == 0 then 16 else if i % 3 == 1 then 8 else 4))
  }

  /** How many nodes `initial_node_specs[: max(1, initial - failed)]` keeps. */
  function Kept(count: nat, failed: int): (p: nat)
    ensures p <= count && (count > 0 ==> p > 0)
  {
    var end := if count - failed < 1 then 1 else count - failed;
    if end < count then end else count
  }

  /** Three consecutive nodes of the mixed topology have 16, 8 and 4 cores: 28 for every three nodes,
      16 or 24 more for one or two left over. In the uniform one all nodes have equally many. */
  lemma {:induction false} TopologyCores(count: nat, coresPerNode: nat, heterogeneous: bool, k: nat)
    requires k <= count
    ensures CoresBefore(InitialNodes(count, coresPerNode, heterogeneous), k)
            == if !heterogeneous then k * coresPerNode
               else k / 3 * 28 + (if k % 3 == 0 then 0 else if k % 3 == 1 then 16 else 24)
  {
    hide PlainName;
    if k > 0 {
      TopologyCores(count, coresPerNode, heterogeneous, k - 1);
      assert k * coresPerNode == (k - 1) * coresPerNode + coresPerNode;
    }
  }

  lemma NodeProfiles(count: nat, coresPerNode: nat, i: nat)
    requires i < count
    ensures InitialNodes(count, coresPerNode, false)[i] == Node(PlainName(i), coresPerNode)
    ensures InitialNodes(count, coresPerNode, true)[i].id == PlainName(i)
    ensures InitialNodes(count, coresPerNode, true)[i].cores in {16, 8, 4}
    ensures i > 0 ==> var nodes := InitialNodes(count, coresPerNode, true);
              nodes[i].cores == if nodes[i - 1].cores == 4 then 16 else nodes[i - 1].cores / 2
    ensures InitialNodes(count, coresPerNode, true)[0].cores == 16
  {
    hide PlainName;
  }

  lemma NamesDistinct(count: nat, coresPerNode: nat, heterogeneous: bool)
    ensures DistinctIds(InitialNodes(count, coresPerNode, heterogeneous))
  {
    hide PlainName;
    var nodes := InitialNodes(count, coresPerNode, heterogeneous);
    forall j, k | 0 <= j < k < |nodes| ensures nodes[j].id != nodes[k].id {
      NamesInjective(j, k);
    }
  }

  function Offsets(shards: seq<ShardSpec>): set<nat> {
    set i | 0 <= i < |shards| :: shards[i].baseOffset
  }

  lemma {:induction false} OffsetCount(shards: seq<ShardSpec>)
    requires forall i, j :: 0 <= i < j < |shards| ==> shards[i].baseOffset != shards[j].baseOffset
    ensures |Offsets(shards)| == |shards|
  {
    if shards != [] {
      var n := |shards| - 1;
      OffsetCount(shards[..n]);
      assert Offsets(shards) == Offsets(shards[..n]) + {shards[n].baseOffset} by {
        forall x | x in Offsets(shards[..n]) ensures x in Offsets(shards) {
          var i :| 0 <= i < n && shards[..n][i].baseOffset == x;
          assert shards[i].baseOffset == x;
        }
      }
      assert shards[n].baseOffset !in Offsets(shards[..n]);
    }
  }

  lemma FleetOffsetsUnique(plan: Plan)
    requires plan.blockSize > 0
    ensures |Offsets(Fleet(plan))| == |Fleet(plan)|
  {
    hide WorkerSeed;
    hide AllShards;
    hide Offsets;
    forall i, j | 0 <= i < j < |Fleet(plan)| ensures Fleet(plan)[i].baseOffset != Fleet(plan)[j].baseOffset {
      ShardAt(plan, |plan.nodes|, i);
      ShardAt(plan, |plan.nodes|, j);
      if i * plan.blockSize == j * plan.blockSize {
        SameMultiple(i, j, plan.blockSize);
      }
    }
    OffsetCount(Fleet(plan));
  }

  /** The whole experiment. The survivors are the generator's fleet over the kept prefix, healing
      restores the initial map, and the integrity check always passes. */
  method RunChaosSimulation(initialNodes: nat, coresPerNode: nat, failedNodes: int, targetGb: nat, heterogeneous: bool)
    returns (initial: map<string, seq<ShardSpec>>, rebalanced: seq<ShardSpec>, healed: map<string, seq<ShardSpec>>, exitCode: int)
    requires initialNodes > 0
    ensures var plan := Plan(42, InitialNodes(initialNodes, coresPerNode, heterogeneous), targetGb * 1024 * 1024 * 1024, 1048576);
            && initial == ShardMap(plan, initialNodes)
            && rebalanced == Fleet(Survivors(plan, Kept(initialNodes, failedNodes)))
            && healed == initial
    ensures exitCode == 0
  {
    hide ShardMap;
    hide Fleet;
    hide NodeShards;
    hide InitialNodes;
    hide Offsets;
    var nodes := InitialNodes(initialNodes, coresPerNode, heterogeneous);
    NamesDistinct(initialNodes, coresPerNode, heterogeneous);
    var plan := Plan(42, nodes, targetGb * 1024 * 1024 * 1024, 1048576);
    var surviving := nodes[..Kept(initialNodes, failedNodes)];
    var few := plan.(nodes := surviving);

    initial := GenerateClusterShards(plan);
    var survivors := GenerateClusterShards(few);
    rebalanced := FlattenShards(few, survivors);
    healed := GenerateClusterShards(plan);
    var healedShards := FlattenShards(plan, healed);

    FleetOffsetsUnique(few);
    FleetOffsetsUnique(plan);
    var unique := |Offsets(rebalanced)| == |rebalanced| && |Offsets(healedShards)| == |healedShards|;
    exitCode := if unique then 0 else 1;
  }

  method FlattenShards(plan: Plan, shards: map<string, seq<ShardSpec>>) returns (flat: seq<ShardSpec>)
    requires DistinctIds(plan.nodes) && shards == ShardMap(plan, |plan.nodes|)
    ensures flat == Fleet(plan)
  {
    assert plan.nodes[..|plan.nodes|] == plan.nodes;
    FlattenedMap(plan, |plan.nodes|);
    flat := Flatten(shards, plan.nodes);
  }

  /** Is node `i` named in the eviction notice? */
  predicate Evicted(count: nat, failed: int, i: nat) {
    count - failed <= i < count
  }

  /** The nodes named as evicted are the ones left out exactly when not all nodes fail: the first
      node is always kept. */
  lemma EvictedAreTheRest(count: nat, failed: int)
    requires count > 0
    ensures (forall i: nat :: i < count ==> (Evicted(count, failed, i) <==> i >= Kept(count, failed))) <==> failed < count
    ensures failed >= count ==> Kept(count, failed) == 1
  {
    if failed >= count {
      assert Evicted(count, failed, 0) && 0 < Kept(count, failed);
    }
  }
}
