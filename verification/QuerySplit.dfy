/** The split of vector queries into ranges for concurrent workers. */
module QuerySplit {
  import opened Division

  datatype Range = Range(start: nat, count: nat)

  function BatchSize(queries: nat, concurrency: nat): nat
    requires concurrency > 0
  {
    if queries / concurrency < 1 then 1 else queries / concurrency
  }

  /** The ranges spawned for the first `k` workers. */
  function Spawned(queries: nat, concurrency: nat, k: nat): seq<Range>
    requires concurrency > 0
  {
    if k == 0 then []
    else
      var batch := BatchSize(queries, concurrency);
      var start := (k - 1) * batch;
      var count := if k < concurrency then batch else queries - start;
      Spawned(queries, concurrency, k - 1) + (if count > 0 then [Range(start, count)] else [])
  }

  method SplitQueries(queries: nat, concurrency: nat) returns (tasks: seq<Range>)
    requires concurrency > 0
    ensures tasks == Spawned(queries, concurrency, concurrency)
  {
    var batch := if queries / concurrency < 1 then 1 else queries / concurrency;
    tasks := [];
    for c := 0 to concurrency
      invariant tasks == Spawned(queries, concurrency, c)
    {
      var start := c * batch;
      var count := if c < concurrency - 1 then batch else queries - start;
      if count > 0 {
        tasks := tasks + [Range(start, count)];
      }
    }
  }

  /** Non-empty ranges, each starting where the one before ends, from 0 to `end`. */
  ghost predicate Tiles(ranges: seq<Range>, end: nat) {
    if ranges == [] then end == 0
    else
      var last := ranges[|ranges| - 1];
      last.count > 0 && last.start + last.count == end && Tiles(ranges[..|ranges| - 1], last.start)
  }

  predicate Holds(r: Range, query: nat) {
    r.start <= query < r.start + r.count
  }

  ghost predicate Covered(ranges: seq<Range>, query: nat) {
    exists k :: 0 <= k < |ranges| && Holds(ranges[k], query)
  }

  lemma {:induction false} TilesHold(ranges: seq<Range>, end: nat, query: nat)
    requires Tiles(ranges, end)
    ensures Covered(ranges, query) <==> query < end
    ensures forall j, k :: 0 <= j < |ranges| && 0 <= k < |ranges| && Holds(ranges[j], query) && Holds(ranges[k], query) ==> j == k
  {
    if ranges != [] {
      var n := |ranges| - 1;
      TilesHold(ranges[..n], ranges[n].start, query);
      assert forall k :: 0 <= k < n ==> ranges[..n][k] == ranges[k];
      if query < ranges[n].start {
        assert Covered(ranges[..n], query);
        var k :| 0 <= k < n && Holds(ranges[..n][k], query);
        assert Holds(ranges[k], query);
      } else if query < end {
        assert Holds(ranges[n], query);
      }
    }
  }

  lemma BatchPositive(queries: nat, concurrency: nat)
    requires concurrency > 0
    ensures BatchSize(queries, concurrency) >= 1
  {
  }

  lemma {:induction false} SpawnedTiles(queries: nat, concurrency: nat, k: nat)
    requires k < concurrency
    ensures Tiles(Spawned(queries, concurrency, k), k * BatchSize(queries, concurrency))
    ensures |Spawned(queries, concurrency, k)| == k
  {
    if k > 0 {
      SpawnedTiles(queries, concurrency, k - 1);
      hide BatchSize;
      NextMultiple(k - 1, BatchSize(queries, concurrency));
      BatchPositive(queries, concurrency);
      var all := Spawned(queries, concurrency, k);
      assert all[..k - 1] == Spawned(queries, concurrency, k - 1);
    }
  }

  /** How many queries actually run. */
  function Executed(queries: nat, concurrency: nat): nat
    requires concurrency > 0
  {
    if queries >= concurrency - 1 then queries else concurrency - 1
  }

  lemma AllTiles(queries: nat, concurrency: nat)
    requires concurrency > 0
    ensures Tiles(Spawned(queries, concurrency, concurrency), Executed(queries, concurrency))
  {
    var c := concurrency - 1;
    SpawnedTiles(queries, concurrency, c);
    BatchTotal(queries, concurrency);
    var all := Spawned(queries, concurrency, concurrency);
    if queries > c * BatchSize(queries, concurrency) {
      assert all[..|all| - 1] == Spawned(queries, concurrency, c);
    } else {
      assert all == Spawned(queries, concurrency, c);
    }
  }

  /** The full batches fit strictly inside the queries if every worker gets one; otherwise they are
      single queries. */
  lemma BatchTotal(queries: nat, concurrency: nat)
    requires concurrency > 0
    ensures var total := (concurrency - 1) * BatchSize(queries, concurrency);
            if queries >= concurrency then total < queries else total == concurrency - 1
  {
    BelowMultiple(queries, 1, concurrency);
    var q := queries / concurrency;
    QuotientIff(queries, q, concurrency);
    assert (concurrency - 1) * q == q * concurrency - q;
  }

  /** The ranges run in order without gap or overlap: each query below max(q, c-1) is in exactly one
      range and no other query is in any. So they cover exactly the q requested queries if and only
      if q is at least c-1; fewer queries still cost c-1 single-query ranges. */
  lemma SplitIsPartition(queries: nat, concurrency: nat)
    requires concurrency > 0
    ensures var ranges := Spawned(queries, concurrency, concurrency);
            && (forall query: nat :: Covered(ranges, query) <==> query < Executed(queries, concurrency))
            && (forall query: nat, j, k :: 0 <= j < |ranges| && 0 <= k < |ranges| && Holds(ranges[j], query) && Holds(ranges[k], query) ==> j == k)
            && ((forall query: nat :: Covered(ranges, query) <==> query < queries)
                <==> queries >= concurrency - 1)
            && (queries < concurrency ==> |ranges| == concurrency - 1 && forall k :: 0 <= k < |ranges| ==> ranges[k] == Range(k, 1))
  {
    hide Spawned;
    var ranges := Spawned(queries, concurrency, concurrency);
    var end := Executed(queries, concurrency);
    AllTiles(queries, concurrency);
    forall query: nat ensures Covered(ranges, query) <==> query < end {
      TilesHold(ranges, end, query);
    }
    forall query: nat, j, k | 0 <= j < |ranges| && 0 <= k < |ranges| && Holds(ranges[j], query) && Holds(ranges[k], query)
      ensures j == k
    {
      TilesHold(ranges, end, query);
    }
    if queries < concurrency - 1 {
      assert Covered(ranges, concurrency - 2);
    }
    if queries < concurrency {
      SingleQueries(queries, concurrency);
    }
  }

  /** The work is even: every worker but the last gets the same whole share of the queries, rounded
      down, and the last one that share and a rest smaller than the number of workers. */
  lemma RangesAreEven(queries: nat, concurrency: nat, share: nat)
    requires 0 < concurrency <= queries && share * concurrency <= queries < share * concurrency + concurrency
    ensures var ranges := Spawned(queries, concurrency, concurrency);
            && |ranges| == concurrency
            && (forall k :: 0 <= k < concurrency - 1 ==> ranges[k] == Range(k * share, share))
            && ranges[concurrency - 1].start == (concurrency - 1) * share
            && share <= ranges[concurrency - 1].count < share + concurrency
  {
    hide Spawned;
    hide BatchSize;
    ShareIsBatch(queries, concurrency, share);
    SharesUpTo(queries, concurrency, concurrency - 1);
    NextMultiple(concurrency - 1, share);
    LastRange(queries, concurrency);
  }

  lemma ShareIsBatch(queries: nat, concurrency: nat, share: nat)
    requires 0 < concurrency <= queries && share * concurrency <= queries < share * concurrency + concurrency
    ensures BatchSize(queries, concurrency) == share > 0
  {
    QuotientIff(queries, share, concurrency);
    BelowMultiple(queries, 1, concurrency);
  }

  lemma LastRange(queries: nat, concurrency: nat)
    requires 0 < concurrency
    ensures var start := (concurrency - 1) * BatchSize(queries, concurrency);
            Spawned(queries, concurrency, concurrency)
            == Spawned(queries, concurrency, concurrency - 1) + (if queries > start then [Range(start, queries - start)] else [])
  {
    hide BatchSize;
  }

  lemma {:induction false} SharesUpTo(queries: nat, concurrency: nat, n: nat)
    requires n < concurrency
    ensures |Spawned(queries, concurrency, n)| == n
    ensures var share := BatchSize(queries, concurrency);
            forall k :: 0 <= k < n ==> Spawned(queries, concurrency, n)[k] == Range(k * share, share)
  {
    hide BatchSize;
    BatchPositive(queries, concurrency);
    if n > 0 {
      SharesUpTo(queries, concurrency, n - 1);
    }
  }

  lemma SingleQueries(queries: nat, concurrency: nat)
    requires queries < concurrency
    ensures var ranges := Spawned(queries, concurrency, concurrency);
            |ranges| == concurrency - 1 && forall k :: 0 <= k < |ranges| ==> ranges[k] == Range(k, 1)
  {
    BelowMultiple(queries, 1, concurrency);
    SharesUpTo(queries, concurrency, concurrency - 1);
    BatchTotal(queries, concurrency);
  }
}
