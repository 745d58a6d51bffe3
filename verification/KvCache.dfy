/** The decode phase of the KV-cache experiment: a fixed-stride walk over the pages of the context. */
module KvCache {
  import opened Payload
  import opened MetricCollector
  import opened Worker
  import opened Division

  /** `max(1, max_context_bytes // block)` with `max_context_bytes = max(prefill, block)`. */
  function PageCount(prefillBytes: int, blockSize: nat): (n: nat)
    requires blockSize > 0
    ensures n >= 1
  {
    var context := if prefillBytes < blockSize then blockSize else prefillBytes;
    if context / blockSize < 1 then 1 else context / blockSize
  }

  function VirtualBlock(step: nat, pages: nat): (b: nat)
    requires pages > 0
    ensures b < pages
  {
    step * 37 % pages
  }

  /** Every token rewrites one page of the context. */
  ghost predicate PageWrites(pages: nat, size: nat, writes: seq<Attempt>)
    requires pages > 0
  {
    forall k :: 0 <= k < |writes| ==> writes[k] == Attempt(VirtualBlock(k, pages) * size, EmulatorPayload(0, size, k + 1))
  }

  /** Token `k` rewrites page `37 k mod n` with the XOR of all masks so far; the token number is the
      seed. A failing write or a token past 2^64 is raised, and exactly the writes before it are
      recorded. */
  method Decode(prefillMb: int, tokens: nat, pageKb: nat, write: Adapter)
    returns (collector: Collector, writes: seq<Attempt>, raised: bool)
    requires pageKb > 0
    ensures var size := pageKb * 1024;
            var accepted := Accepted(0, size, tokens);
            var ops := Successes(write, accepted);
            && Recorded(collector, write, ops)
            && (raised <==> ops < tokens)
            && |writes| == ops + (if ops < accepted then 1 else 0)
            && PageWrites(PageCount(prefillMb * 1024 * 1024, size), size, writes)
  {
    hide InStep;
    hide Recorded;
    hide Successes;
    hide PageWrites;
    hide EmulatorPayload;
    var size := pageKb * 1024;
    var context := prefillMb * 1024 * 1024;
    if context < size {
      context := size;
    }
    var mutator;
    mutator, collector := Prepare(Emulator, 0, size, write);
    ghost var pages, limit := PageCount(prefillMb * 1024 * 1024, size), Accepted(0, size, tokens);
    NoPageWrites(pages, size);
    writes := [];
    for step := 0 to tokens
      invariant fresh(collector) && fresh(collector.buckets) && fresh(mutator) && fresh(mutator.mem)
      invariant mutator.size == size && InStep(Emulator, 0, mutator, collector, write, step)
      invariant |writes| == step <= limit && PageWrites(pages, size, writes)
    {
      InStepRecorded(Emulator, 0, mutator, collector, write, step);
      RecordedValues(collector, write, step);
      var page := step * 37 % (if context / size < 1 then 1 else context / size);
      assert page == VirtualBlock(step, pages);
      var accepted, attempt := Turn(Emulator, 0, mutator, collector, write, step, page * size);
      if !accepted {
        SuccessesIs(write, limit, step);
        raised := true;
        return;
      }
      ExtendPageWrites(pages, size, writes, attempt);
      writes := writes + [attempt];
      if write(step).Failed? {
        SuccessesIs(write, limit, step);
        raised := true;
        return;
      }
    }
    InStepRecorded(Emulator, 0, mutator, collector, write, tokens);
    RecordedValues(collector, write, tokens);
    SuccessesIs(write, limit, tokens);
    raised := false;
  }

  lemma NoPageWrites(pages: nat, size: nat)
    requires pages > 0
    ensures PageWrites(pages, size, [])
  {
  }

  lemma ExtendPageWrites(pages: nat, size: nat, writes: seq<Attempt>, next: Attempt)
    requires pages > 0 && PageWrites(pages, size, writes)
    requires next == Attempt(VirtualBlock(|writes|, pages) * size, EmulatorPayload(0, size, |writes| + 1))
    ensures PageWrites(pages, size, writes + [next])
  {
    hide EmulatorPayload;
    hide VirtualBlock;
  }

  /** As many pages as fit into the context. */
  lemma PagesFillContext(prefillBytes: int, blockSize: nat)
    requires blockSize > 0
    ensures var context := if prefillBytes < blockSize then blockSize else prefillBytes;
            var pages := PageCount(prefillBytes, blockSize);
            pages * blockSize <= context < pages * blockSize + blockSize
  {
    var context := if prefillBytes < blockSize then blockSize else prefillBytes;
    BelowMultiple(context, 1, blockSize);
    QuotientAndRemainder(context, blockSize);
  }

  /** Where token `k` of a decode run goes, from the context size alone: 37k is cut down by whole
      rounds through the pages that fit. */
  lemma TokenPlace(prefillBytes: int, size: nat, writes: seq<Attempt>, k: nat, pages: nat, rounds: nat, page: nat)
    requires size > 0 && PageWrites(PageCount(prefillBytes, size), size, writes) && k < |writes|
    requires pages * size <= (if prefillBytes < size then size else prefillBytes) < pages * size + size
    requires 37 * k == rounds * pages + page && page < pages
    ensures writes[k].offset == page * size
  {
    hide EmulatorPayload;
    hide PageCount;
    PagesFillContext(prefillBytes, size);
    MultipleGap(pages, PageCount(prefillBytes, size), size);
    assert pages == PageCount(prefillBytes, size);
    DivMod(rounds, page, pages);
  }

  /** Every write stays inside the context region. */
  lemma WritesStayInside(prefillBytes: int, blockSize: nat, step: nat)
    requires blockSize > 0
    ensures var offset := VirtualBlock(step, PageCount(prefillBytes, blockSize)) * blockSize;
            offset + blockSize <= if prefillBytes < blockSize then blockSize else prefillBytes
  {
    hide VirtualBlock;
    var context := if prefillBytes < blockSize then blockSize else prefillBytes;
    var q, b := context / blockSize, VirtualBlock(step, PageCount(prefillBytes, blockSize));
    BelowMultiple(context, 1, blockSize);
    QuotientIff(context, q, blockSize);
    assert (b + 1) * blockSize <= q * blockSize;
  }

  // ----- 37 is prime -----

  lemma Remainder37(q: nat)
    requires 1 < q < 37
    ensures 0 < 37 % q < q
  {
    if q < 7 {
      assert q == 2 || q == 3 || q == 4 || q == 5 || q == 6;
    } else {
      var c := 37 / q;
      assert 37 == q * c + 37 % q;
      BelowMultiple(37, 6, q);
      if c == 1 {
      } else if c == 2 {
      } else if c == 3 {
      } else if c == 4 {
      }
    }
  }

  /** If 37 = c*q + r and n*q = 37*t then 37 divides n*r. */
  lemma EuclidStep(n: nat, q: nat, c: nat, r: nat, t: nat)
    requires 37 == c * q + r && n * q == 37 * t
    ensures n * r == 37 * (n - c * t)
  {
    var p := n * q;
    assert n * 37 == c * p + n * r by {
      assert n * (c * q + r) == n * (c * q) + n * r;
      assert n * (c * q) == c * (n * q);
    }
    assert c * (37 * t) == 37 * (c * t);
  }

  lemma MultipleOf37(x: int)
    ensures 37 * x % 37 == 0
  {
  }

  /** If 37 divides n*q and 0 < q < 37 then 37 divides n: replace q by 37 mod q until it is 1. */
  lemma {:induction false} Euclid37(n: nat, q: nat, t: nat)
    requires 0 < q < 37 && n * q == 37 * t
    ensures n % 37 == 0
    decreases q
  {
    if q > 1 {
      Remainder37(q);
      var c, r := 37 / q, 37 % q;
      QuotientAndRemainder(37, q);
      EuclidStep(n, q, c, r, t);
      Euclid37(n, r, n - c * t);
    } else {
      MultipleOf37(t);
    }
  }

  // ----- the walk -----

  /** The pages visited by `count` consecutive steps. */
  function Visited(start: nat, count: nat, pages: nat): set<nat>
    requires pages > 0
  {
    if count == 0 then {} else Visited(start, count - 1, pages) + {VirtualBlock(start + count - 1, pages)}
  }

  /** Steps less than n apart meet the same page only if 37 divides n. */
  lemma MeetOnlyIf37Divides(i: nat, j: nat, pages: nat)
    requires i < j < i + pages && VirtualBlock(i, pages) == VirtualBlock(j, pages)
    ensures pages % 37 == 0
  {
    var d, q := j - i, j * 37 / pages - i * 37 / pages;
    assert i * 37 == (i * 37 / pages) * pages + VirtualBlock(i, pages);
    assert j * 37 == (j * 37 / pages) * pages + VirtualBlock(j, pages);
    assert 37 * d == pages * q;
    FactorBetween(pages, q, 37);
    Euclid37(pages, q, d);
  }

  lemma {:induction false} VisitedBefore(start: nat, count: nat, pages: nat, b: nat)
    requires pages > 0
    ensures b in Visited(start, count, pages) <==> exists t :: start <= t < start + count && VirtualBlock(t, pages) == b
  {
    hide VirtualBlock;
    if count > 0 {
      VisitedBefore(start, count - 1, pages, b);
      if VirtualBlock(start + count - 1, pages) == b {
        assert start <= start + count - 1 < start + count;
      }
    }
  }

  lemma {:induction false} AllDifferent(start: nat, count: nat, pages: nat)
    requires pages > 0 && pages % 37 != 0 && count <= pages
    ensures |Visited(start, count, pages)| == count
  {
    hide VirtualBlock;
    if count > 0 {
      AllDifferent(start, count - 1, pages);
      var last := start + count - 1;
      VisitedBefore(start, count - 1, pages, VirtualBlock(last, pages));
      forall t | start <= t < last ensures VirtualBlock(t, pages) != VirtualBlock(last, pages) {
        if VirtualBlock(t, pages) == VirtualBlock(last, pages) {
          MeetOnlyIf37Divides(t, last, pages);
        }
      }
    }
  }

  function FirstNats(n: nat): (s: set<nat>)
    ensures forall x :: x in s <==> 0 <= x < n
    ensures |s| == n
  {
    if n == 0 then {} else FirstNats(n - 1) + {n - 1}
  }

  lemma {:induction false} FullSubset(a: set<nat>, b: set<nat>)
    requires a <= b && |a| == |b|
    ensures a == b
  {
    if a != {} {
      var x :| x in a;
      FullSubset(a - {x}, b - {x});
    }
  }

  /** Unless 37 divides n, any n consecutive steps visit every page, each exactly once. */
  lemma FullCycle(start: nat, pages: nat)
    requires pages % 37 != 0
    ensures Visited(start, pages, pages) == FirstNats(pages)
    ensures forall i, j :: start <= i < j < start + pages ==> VirtualBlock(i, pages) != VirtualBlock(j, pages)
  {
    hide VirtualBlock;
    AllDifferent(start, pages, pages);
    forall b | b in Visited(start, pages, pages) ensures b in FirstNats(pages) {
      VisitedBefore(start, pages, pages, b);
    }
    FullSubset(Visited(start, pages, pages), FirstNats(pages));
    forall i, j | start <= i < j < start + pages ensures VirtualBlock(i, pages) != VirtualBlock(j, pages) {
      if VirtualBlock(i, pages) == VirtualBlock(j, pages) {
        MeetOnlyIf37Divides(i, j, pages);
      }
    }
  }

  /** The first m multiples of 37. */
  function Multiples37(m: nat): (s: set<nat>)
    ensures forall x :: x in s <==> exists q :: 0 <= q < m && x == 37 * q
    ensures |s| == m
  {
    if m == 0 then {} else Multiples37(m - 1) + {37 * (m - 1)}
  }

  lemma ShortStride(t: nat, m: nat)
    requires m > 0
    ensures VirtualBlock(t, 37 * m) == 37 * (t % m) && 0 <= t % m < m
  {
    var q, r := t / m, t % m;
    assert t * 37 == (37 * m) * q + 37 * r by {
      assert t == m * q + r;
    }
    DivMod(q, 37 * r, 37 * m);
  }

  /** If 37 divides n, any n consecutive steps visit only the n/37 multiples of 37. */
  lemma ShortCycle(start: nat, pages: nat)
    requires pages > 0 && pages % 37 == 0
    ensures Visited(start, pages, pages) == Multiples37(pages / 37)
    ensures |Visited(start, pages, pages)| == pages / 37
  {
    hide VirtualBlock;
    hide Visited;
    hide Multiples37;
    forall b | b in Visited(start, pages, pages) ensures b in Multiples37(pages / 37) {
      VisitedBefore(start, pages, pages, b);
      var t :| start <= t < start + pages && VirtualBlock(t, pages) == b;
      ShortStride(t, pages / 37);
    }
    forall b | b in Multiples37(pages / 37) ensures b in Visited(start, pages, pages) {
      MultipleVisited(start, pages / 37, b);
    }
  }

  lemma MultipleVisited(start: nat, m: nat, b: nat)
    requires m > 0 && b in Multiples37(m)
    ensures b in Visited(start, 37 * m, 37 * m)
  {
    hide VirtualBlock;
    hide Visited;
    hide Multiples37;
    var q :| 0 <= q < m && b == 37 * q;
    var t := NextWithRemainder(start, m, q);
    ShortStride(t, m);
    VisitedBefore(start, 37 * m, 37 * m, b);
  }

  lemma NextWithRemainder(start: nat, m: nat, q: nat) returns (t: nat)
    requires q < m
    ensures start <= t < start + m && t % m == q
  {
    var k, r := start / m, start % m;
    QuotientAndRemainder(start, m);
    var base := k * m;
    if r <= q {
      t := base + q;
      DivMod(k, q, m);
    } else {
      t := base + m + q;
      NextMultiple(k, m);
      DivMod(k + 1, q, m);
    }
  }
}
