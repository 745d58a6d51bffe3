/** All workers of a fleet running concurrently over one shared address space, as the engine or as the
    emulator runs them: every interleaving of their writes, including writes that fail half-way and
    seeds that run out. */
module FleetRun {
  import opened Bits
  import opened Payload
  import opened SplitMix
  import opened Sharding
  import opened Worker
  import opened Division

  datatype Status = Running | Broken | Refused

  datatype Core = Core(offset: nat, ops: nat, status: Status, buffer: seq<byte>)

  /** `image` is what the storage holds; `log` records who attempted which write, in order. */
  datatype State = State(cores: seq<Core>, image: map<nat, byte>, log: seq<(nat, Attempt)>)

  /** One worker completes its next write, or breaks off in it having stored `torn` at most, or
      has its seed refused by the mutator before it writes. */
  datatype Event = Done(core: nat) | Break(core: nat, torn: seq<byte>) | Refuse(core: nat)

  /** What the generator guarantees about the workers' specs. */
  ghost predicate Laid(specs: seq<ShardSpec>, size: nat) {
    forall i :: 0 <= i < |specs| ==>
      && specs[i].baseOffset == i * size
      && specs[i].stride == |specs| * size
      && specs[i].blockSize == size
      && specs[i].seed < WORD_SIZE
  }

  lemma GeneratedFleetIsLaid(plan: Plan)
    ensures |Fleet(plan)| == TotalCores(plan.nodes) && Laid(Fleet(plan), plan.blockSize)
  {
    hide WorkerSeed;
    hide AllShards;
    ShardAt(plan, |plan.nodes|, 0);
    forall i | 0 <= i < |Fleet(plan)|
      ensures Fleet(plan)[i].baseOffset == i * plan.blockSize && Fleet(plan)[i].seed < WORD_SIZE
      ensures Fleet(plan)[i].stride == |Fleet(plan)| * plan.blockSize && Fleet(plan)[i].blockSize == plan.blockSize
    {
      ShardAt(plan, |plan.nodes|, i);
      SeedsCollideIff(plan.globalSeed, i, i);
    }
  }

  function Init(specs: seq<ShardSpec>): State {
    State(seq(|specs|, i requires 0 <= i < |specs| => Core(specs[i].baseOffset, 0, Running, Zeros(specs[i].blockSize))), map[], [])
  }

  predicate InExtent(at: nat, len: nat, a: nat) {
    at <= a < at + len
  }

  /** The bytes a write leaves in the address space. */
  function Stored(at: nat, data: seq<byte>): map<nat, byte> {
    map a: nat | at <= a < at + |data| && InExtent(at, |data|, a) :: data[a - at]
  }

  predicate Enabled(program: Program, specs: seq<ShardSpec>, s: State, e: Event) {
    && e.core < |specs| && e.core < |s.cores| && s.cores[e.core].status.Running?
    && (e.Refuse? <==> !SeedFits(program, specs[e.core].seed, specs[e.core].blockSize, s.cores[e.core].ops))
    && (e.Break? ==> |e.torn| <= specs[e.core].blockSize)
  }

  function Step(program: Program, specs: seq<ShardSpec>, s: State, e: Event): State
    requires Enabled(program, specs, s, e)
  {
    var spec, core := specs[e.core], s.cores[e.core];
    var buffer := Effect(core.buffer, ApplyEntropy(0, spec.blockSize, OpSeed(program, spec.seed, core.ops)));
    var log := s.log + [(e.core, Attempt(core.offset, buffer))];
    match e
    case Done(c) =>
      State(s.cores[c := Core(core.offset + spec.stride, core.ops + 1, Running, buffer)], s.image + Stored(core.offset, buffer), log)
    case Break(c, torn) =>
      State(s.cores[c := Core(core.offset, core.ops, Broken, buffer)], s.image + Stored(core.offset, torn), log)
    case Refuse(c) =>
      s.(cores := s.cores[c := core.(status := Refused)])
  }

  /** Can the events happen in this order? Any interleaving of workers that still run can. */
  predicate Feasible(program: Program, specs: seq<ShardSpec>, events: seq<Event>)
    decreases |events|, 0
  {
    events == [] ||
    (Feasible(program, specs, events[..|events| - 1])
     && Enabled(program, specs, After(program, specs, events[..|events| - 1]), events[|events| - 1]))
  }

  function After(program: Program, specs: seq<ShardSpec>, events: seq<Event>): State
    requires Feasible(program, specs, events)
    decreases |events|, 1
  {
    if events == [] then Init(specs)
    else Step(program, specs, After(program, specs, events[..|events| - 1]), events[|events| - 1])
  }

  // ----- the grid of blocks: block b belongs to core b mod N, step b div N -----

  function BlockOf(a: nat, size: nat): nat
    requires size > 0
  {
    a / size
  }

  function CoreOf(b: nat, n: nat): (i: nat)
    requires n > 0
    ensures i < n
  {
    b % n
  }

  function StepOf(b: nat, n: nat): nat
    requires n > 0
  {
    b / n
  }

  lemma InBlock(a: nat, b: nat, size: nat)
    requires size > 0
    ensures BlockOf(a, size) == b <==> b * size <= a < b * size + size
  {
    QuotientIff(a, b, size);
  }

  lemma GridPosition(b: nat, i: nat, k: nat, n: nat)
    requires i < n
    ensures CoreOf(b, n) == i && StepOf(b, n) == k <==> b == k * n + i
  {
    if b == k * n + i {
      InBlock(b, k, n);
    }
  }

  lemma WalkOffset(i: nat, k: nat, n: nat, size: nat)
    ensures i * size + k * (n * size) == (k * n + i) * size
  {
  }

  /** Blocks that have been written, or that a broken worker was writing. */
  ghost predicate Attempted(s: State, b: nat)
    requires s.cores != []
  {
    var core := s.cores[CoreOf(b, |s.cores|)];
    StepOf(b, |s.cores|) < core.ops || (core.status.Broken? && StepOf(b, |s.cores|) == core.ops)
  }

  ghost predicate Completed(s: State, b: nat)
    requires s.cores != []
  {
    StepOf(b, |s.cores|) < s.cores[CoreOf(b, |s.cores|)].ops
  }

  /** The byte the finished run leaves at address `a`, whatever the schedule. */
  function FinalByte(program: Program, specs: seq<ShardSpec>, size: nat, a: nat): byte
    requires specs != [] && size > 0
  {
    var b := BlockOf(a, size);
    InBlock(a, b, size);
    OpPayload(program, specs[CoreOf(b, |specs|)].seed, size, StepOf(b, |specs|) + 1)[a - b * size]
  }

  function Project(log: seq<(nat, Attempt)>, i: nat): seq<Attempt> {
    if log == [] then []
    else
      var rest := Project(log[..|log| - 1], i);
      if log[|log| - 1].0 == i then rest + [log[|log| - 1].1] else rest
  }

  // ----- the invariant -----

  /** Does the worker's seed fit in each of its first `turns` ops? The engine's always does. */
  predicate Lasts(program: Program, spec: ShardSpec, turns: nat) {
    turns == 0 || SeedFits(program, spec.seed, spec.blockSize, turns - 1)
  }

  ghost predicate CoresOk(program: Program, specs: seq<ShardSpec>, size: nat, s: State) {
    && |s.cores| == |specs|
    && forall i :: 0 <= i < |specs| ==>
         && s.cores[i].offset == specs[i].baseOffset + s.cores[i].ops * specs[i].stride
         && Lasts(program, specs[i], s.cores[i].ops)
         && (s.cores[i].status.Refused? ==> !SeedFits(program, specs[i].seed, specs[i].blockSize, s.cores[i].ops))
         && (!s.cores[i].status.Broken? ==> s.cores[i].buffer == OpPayload(program, specs[i].seed, size, s.cores[i].ops))
  }

  ghost predicate ImageOk(program: Program, specs: seq<ShardSpec>, size: nat, s: State)
    requires specs != [] && size > 0 && |s.cores| == |specs|
  {
    && (forall a: nat :: Completed(s, BlockOf(a, size)) ==> a in s.image && s.image[a] == FinalByte(program, specs, size, a))
    && (forall a :: a in s.image ==> Attempted(s, BlockOf(a, size)))
  }

  ghost predicate LogOk(program: Program, specs: seq<ShardSpec>, size: nat, s: State)
    requires specs != [] && size > 0 && |s.cores| == |specs|
  {
    && (forall p :: 0 <= p < |s.log| ==> Attempted(s, BlockOf(s.log[p].1.offset, size)) && s.log[p].1.offset % size == 0)
    && (forall p, q :: 0 <= p < q < |s.log| ==> s.log[p].1.offset != s.log[q].1.offset)
    && (forall i :: 0 <= i < |specs| ==>
          && |Project(s.log, i)| == s.cores[i].ops + (if s.cores[i].status.Broken? then 1 else 0)
          && ShardWrites(program, specs[i], Project(s.log, i)))
  }

  /** The block the core's next write goes to. */
  function NextBlock(s: State, i: nat): nat
    requires i < |s.cores|
  {
    s.cores[i].ops * |s.cores| + i
  }

  lemma NextBlockPlace(program: Program, specs: seq<ShardSpec>, size: nat, s: State, i: nat)
    requires size > 0 && Laid(specs, size) && CoresOk(program, specs, size, s) && i < |specs|
    ensures s.cores[i].offset == NextBlock(s, i) * size
    ensures CoreOf(NextBlock(s, i), |specs|) == i && StepOf(NextBlock(s, i), |specs|) == s.cores[i].ops
    ensures BlockOf(s.cores[i].offset, size) == NextBlock(s, i) && s.cores[i].offset % size == 0
  {
    hide BlockOf;
    hide CoreOf;
    hide StepOf;
    WalkOffset(i, s.cores[i].ops, |specs|, size);
    GridPosition(NextBlock(s, i), i, s.cores[i].ops, |specs|);
    InBlock(s.cores[i].offset, NextBlock(s, i), size);
    DivMod(NextBlock(s, i), 0, size);
  }

  lemma BufferAfterTurn(program: Program, specs: seq<ShardSpec>, size: nat, s: State, e: Event)
    requires Laid(specs, size) && CoresOk(program, specs, size, s) && Enabled(program, specs, s, e) && !e.Refuse?
    ensures Effect(s.cores[e.core].buffer, ApplyEntropy(0, specs[e.core].blockSize, OpSeed(program, specs[e.core].seed, s.cores[e.core].ops)))
            == OpPayload(program, specs[e.core].seed, size, s.cores[e.core].ops + 1)
  {
    hide Effect;
    hide OpPayload;
    OpHistory(program, specs[e.core].seed, size, s.cores[e.core].ops);
  }

  lemma StepCores(program: Program, specs: seq<ShardSpec>, size: nat, s: State, e: Event)
    requires Laid(specs, size) && CoresOk(program, specs, size, s) && Enabled(program, specs, s, e)
    ensures CoresOk(program, specs, size, Step(program, specs, s, e))
  {
    hide Effect;
    hide OpPayload;
    if !e.Refuse? {
      BufferAfterTurn(program, specs, size, s, e);
    }
    NextOffset(specs[e.core], s.cores[e.core].ops);
  }

  /** The step completes or attempts exactly the core's next block, which nobody has attempted, or
      nothing when the seed is refused. */
  lemma StepBlocks(program: Program, specs: seq<ShardSpec>, size: nat, s: State, e: Event, b: nat)
    requires specs != [] && size > 0 && Laid(specs, size) && CoresOk(program, specs, size, s) && Enabled(program, specs, s, e)
    ensures var t, next := Step(program, specs, s, e), NextBlock(s, e.core);
            && (Attempted(t, b) <==> Attempted(s, b) || (!e.Refuse? && b == next))
            && (Completed(t, b) <==> Completed(s, b) || (e.Done? && b == next))
            && (Completed(s, b) ==> Attempted(s, b))
            && !Attempted(s, next)
  {
    hide Effect;
    hide BlockOf;
    hide CoreOf;
    hide StepOf;
    NextBlockPlace(program, specs, size, s, e.core);
    GridPosition(b, e.core, s.cores[e.core].ops, |specs|);
  }

  lemma StepImageAt(program: Program, specs: seq<ShardSpec>, size: nat, s: State, e: Event, a: nat)
    requires specs != [] && size > 0 && Laid(specs, size) && CoresOk(program, specs, size, s) && Enabled(program, specs, s, e)
    ensures var t, next := Step(program, specs, s, e), NextBlock(s, e.core);
            && (BlockOf(a, size) != next || e.Refuse? ==> (a in t.image <==> a in s.image))
            && ((BlockOf(a, size) != next || e.Refuse?) && a in s.image ==> t.image[a] == s.image[a])
            && (BlockOf(a, size) == next && e.Done? ==> a in t.image && t.image[a] == FinalByte(program, specs, size, a))
  {
    hide Effect;
    hide OpPayload;
    hide BlockOf;
    hide CoreOf;
    hide StepOf;
    if !e.Refuse? {
      BufferAfterTurn(program, specs, size, s, e);
    }
    NextBlockPlace(program, specs, size, s, e.core);
    InBlock(a, NextBlock(s, e.core), size);
  }

  lemma StepImage(program: Program, specs: seq<ShardSpec>, size: nat, s: State, e: Event)
    requires specs != [] && size > 0 && Laid(specs, size) && CoresOk(program, specs, size, s) && Enabled(program, specs, s, e)
    requires ImageOk(program, specs, size, s)
    ensures ImageOk(program, specs, size, Step(program, specs, s, e))
  {
    hide Step;
    hide FinalByte;
    hide BlockOf;
    hide Attempted;
    hide Completed;
    var t := Step(program, specs, s, e);
    assert |t.cores| == |specs| by { StepCores(program, specs, size, s, e); }
    forall a: nat | Completed(t, BlockOf(a, size)) ensures a in t.image && t.image[a] == FinalByte(program, specs, size, a) {
      StepBlocks(program, specs, size, s, e, BlockOf(a, size));
      StepImageAt(program, specs, size, s, e, a);
    }
    forall a | a in t.image ensures Attempted(t, BlockOf(a, size)) {
      StepBlocks(program, specs, size, s, e, BlockOf(a, size));
      StepImageAt(program, specs, size, s, e, a);
    }
  }

  lemma StepLog(program: Program, specs: seq<ShardSpec>, size: nat, s: State, e: Event)
    requires specs != [] && size > 0 && Laid(specs, size) && CoresOk(program, specs, size, s) && Enabled(program, specs, s, e)
    requires LogOk(program, specs, size, s)
    ensures LogOk(program, specs, size, Step(program, specs, s, e))
  {
    hide Effect;
    hide OpPayload;
    hide BlockOf;
    hide Attempted;
    hide Completed;
    hide SeedFits;
    hide Lasts;
    hide Project;
    hide ShardWrites;
    hide Stored;
    var t, i := Step(program, specs, s, e), e.core;
    forall p | 0 <= p < |s.log| ensures Attempted(t, BlockOf(s.log[p].1.offset, size)) {
      StepBlocks(program, specs, size, s, e, BlockOf(s.log[p].1.offset, size));
    }
    if !e.Refuse? {
      NextBlockPlace(program, specs, size, s, i);
      StepBlocks(program, specs, size, s, e, NextBlock(s, i));
      NewWrite(program, specs, size, s, e);
      forall j | 0 <= j < |specs|
        ensures |Project(t.log, j)| == t.cores[j].ops + (if t.cores[j].status.Broken? then 1 else 0)
        ensures ShardWrites(program, specs[j], Project(t.log, j))
      {
        ProjectNext(s.log, t.log[|s.log|], j);
      }
    }
  }

  lemma ProjectNext(log: seq<(nat, Attempt)>, next: (nat, Attempt), i: nat)
    ensures Project(log + [next], i) == if next.0 == i then Project(log, i) + [next.1] else Project(log, i)
  {
    assert (log + [next])[..|log|] == log;
  }

  /** The write a step attempts is the next one of the worker's shard. */
  lemma NewWrite(program: Program, specs: seq<ShardSpec>, size: nat, s: State, e: Event)
    requires specs != [] && size > 0 && Laid(specs, size) && CoresOk(program, specs, size, s) && Enabled(program, specs, s, e)
    requires LogOk(program, specs, size, s) && !e.Refuse?
    ensures var t := Step(program, specs, s, e);
            |t.log| == |s.log| + 1 && t.log == s.log + [t.log[|s.log|]] && t.log[|s.log|].0 == e.core && t.log[|s.log|].1.offset == s.cores[e.core].offset
            && ShardWrites(program, specs[e.core], Project(s.log, e.core) + [t.log[|s.log|].1])
  {
    hide Effect;
    hide OpPayload;
    hide Project;
    hide BlockOf;
    hide Attempted;
    hide SeedFits;
    hide Lasts;
    BufferAfterTurn(program, specs, size, s, e);
    ExtendWrites(program, specs[e.core], Project(s.log, e.core), Step(program, specs, s, e).log[|s.log|].1);
  }

  ghost predicate Invariant(program: Program, specs: seq<ShardSpec>, size: nat, s: State)
    requires specs != [] && size > 0
  {
    CoresOk(program, specs, size, s) && ImageOk(program, specs, size, s) && LogOk(program, specs, size, s)
  }

  lemma InitInvariant(program: Program, specs: seq<ShardSpec>, size: nat)
    requires specs != [] && size > 0 && Laid(specs, size)
    ensures Invariant(program, specs, size, Init(specs))
  {
    hide BlockOf;
    hide CoreOf;
    hide StepOf;
    hide OpPayload;
    forall i | 0 <= i < |specs| ensures Init(specs).cores[i].buffer == OpPayload(program, specs[i].seed, size, 0) {
      NoOps(program, specs[i].seed, size);
    }
  }

  /** Every interleaving keeps the invariant. */
  lemma {:induction false} FleetInvariant(program: Program, specs: seq<ShardSpec>, size: nat, events: seq<Event>)
    requires specs != [] && size > 0 && Laid(specs, size) && Feasible(program, specs, events)
    ensures Invariant(program, specs, size, After(program, specs, events))
  {
    hide Init;
    hide Step;
    hide Enabled;
    hide CoresOk;
    hide ImageOk;
    hide LogOk;
    if events == [] {
      InitInvariant(program, specs, size);
    } else {
      var before, e := After(program, specs, events[..|events| - 1]), events[|events| - 1];
      FleetInvariant(program, specs, size, events[..|events| - 1]);
      InvariantStep(program, specs, size, before, e);
    }
  }

  lemma InvariantStep(program: Program, specs: seq<ShardSpec>, size: nat, s: State, e: Event)
    requires specs != [] && size > 0 && Laid(specs, size) && Enabled(program, specs, s, e)
    requires Invariant(program, specs, size, s)
    ensures Invariant(program, specs, size, Step(program, specs, s, e))
  {
    hide ImageOk;
    hide LogOk;
    hide Step;
    StepCores(program, specs, size, s, e);
    StepImage(program, specs, size, s, e);
    StepLog(program, specs, size, s, e);
  }

  // ----- main results, for the fleet the generator lays out -----

  /** Bytes that a planned run leaves at address `a`: the payload of op b div N + 1 of core b mod N. */
  function PlannedByte(program: Program, plan: Plan, a: nat): byte
    requires TotalCores(plan.nodes) > 0 && plan.blockSize > 0
  {
    var n, b := TotalCores(plan.nodes), BlockOf(a, plan.blockSize);
    InBlock(a, b, plan.blockSize);
    OpPayload(program, WorkerSeed(plan.globalSeed, CoreOf(b, n)), plan.blockSize, StepOf(b, n) + 1)[a - b * plan.blockSize]
  }

  lemma PlannedFinalByte(program: Program, plan: Plan, a: nat)
    requires TotalCores(plan.nodes) > 0 && plan.blockSize > 0
    ensures Fleet(plan) != [] && PlannedByte(program, plan, a) == FinalByte(program, Fleet(plan), plan.blockSize, a)
  {
    hide WorkerSeed;
    hide OpPayload;
    hide BlockOf;
    hide CoreOf;
    hide StepOf;
    hide Fleet;
    SeedAt(plan, CoreOf(BlockOf(a, plan.blockSize), TotalCores(plan.nodes)));
  }

  /** In every run, also with failing workers, each worker is where its op count says, the writes it
      attempted are the ones its program makes when it runs alone, and it is refused only when its
      seed has run out. */
  lemma WorkersWalkTheirShards(program: Program, plan: Plan, events: seq<Event>, i: nat)
    requires plan.blockSize > 0 && i < TotalCores(plan.nodes) && Feasible(program, Fleet(plan), events)
    ensures i < |Fleet(plan)| == |After(program, Fleet(plan), events).cores|
    ensures var spec, core := Fleet(plan)[i], After(program, Fleet(plan), events).cores[i];
            && core.offset == spec.baseOffset + core.ops * spec.stride
            && Lasts(program, spec, core.ops)
            && (core.status.Refused? ==> !Lasts(program, spec, core.ops + 1))
            && |Project(After(program, Fleet(plan), events).log, i)| == core.ops + (if core.status.Broken? then 1 else 0)
            && ShardWrites(program, spec, Project(After(program, Fleet(plan), events).log, i))
  {
    hide Fleet;
    hide After;
    hide Feasible;
    hide ImageOk;
    GeneratedFleetIsLaid(plan);
    FleetInvariant(program, Fleet(plan), plan.blockSize, events);
  }

  /** No two writes of a run overlap, whoever makes them and whether or not they succeed. */
  lemma WritesAreDisjoint(program: Program, plan: Plan, events: seq<Event>, p: nat, q: nat)
    requires plan.blockSize > 0 && TotalCores(plan.nodes) > 0 && Feasible(program, Fleet(plan), events)
    requires p < q < |After(program, Fleet(plan), events).log|
    ensures var x, y := After(program, Fleet(plan), events).log[p].1.offset, After(program, Fleet(plan), events).log[q].1.offset;
            x + plan.blockSize <= y || y + plan.blockSize <= x
  {
    hide Fleet;
    hide After;
    hide Feasible;
    hide ImageOk;
    GeneratedFleetIsLaid(plan);
    FleetInvariant(program, Fleet(plan), plan.blockSize, events);
    var log := After(program, Fleet(plan), events).log;
    DistinctMultiples(log[p].1.offset, log[q].1.offset, plan.blockSize);
  }

  /** A completed block keeps its payload for ever, even when other workers fail half-way. */
  lemma CompletedBlocksIntact(program: Program, plan: Plan, events: seq<Event>, a: nat)
    requires plan.blockSize > 0 && TotalCores(plan.nodes) > 0 && Feasible(program, Fleet(plan), events)
    ensures var s := After(program, Fleet(plan), events);
            && s.cores != []
            && (Completed(s, BlockOf(a, plan.blockSize)) ==> a in s.image && s.image[a] == PlannedByte(program, plan, a))
            && (a in s.image ==> Attempted(s, BlockOf(a, plan.blockSize)))
  {
    hide Fleet;
    hide After;
    hide Feasible;
    hide LogOk;
    hide PlannedByte;
    hide FinalByte;
    hide BlockOf;
    hide Completed;
    hide Attempted;
    GeneratedFleetIsLaid(plan);
    FleetInvariant(program, Fleet(plan), plan.blockSize, events);
    PlannedFinalByte(program, plan, a);
  }

  function DoneEvents(schedule: seq<nat>): seq<Event> {
    seq(|schedule|, k requires 0 <= k < |schedule| => Done(schedule[k]))
  }

  lemma OneMoreEvent(program: Program, specs: seq<ShardSpec>, events: seq<Event>, e: Event)
    ensures Feasible(program, specs, events + [e])
            <==> Feasible(program, specs, events) && Enabled(program, specs, After(program, specs, events), e)
    ensures Feasible(program, specs, events + [e]) ==>
              After(program, specs, events + [e]) == Step(program, specs, After(program, specs, events), e)
  {
    hide Enabled;
    hide Step;
    hide Init;
    assert (events + [e])[..|events|] == events;
  }

  ghost predicate AllRunning(specs: seq<ShardSpec>, s: State, ops: multiset<nat>) {
    |s.cores| == |specs| && forall i :: 0 <= i < |specs| ==> s.cores[i].ops == ops[i] && s.cores[i].status.Running?
  }

  ghost predicate AllLast(program: Program, specs: seq<ShardSpec>, ops: multiset<nat>) {
    forall i :: 0 <= i < |specs| ==> Lasts(program, specs[i], ops[i])
  }

  lemma DoneStep(program: Program, specs: seq<ShardSpec>, s: State, ops: multiset<nat>, c: nat)
    requires AllRunning(specs, s, ops) && c < |specs|
    ensures Enabled(program, specs, s, Done(c)) <==> Lasts(program, specs[c], ops[c] + 1)
    ensures Enabled(program, specs, s, Done(c)) ==>
              AllRunning(specs, Step(program, specs, s, Done(c)), ops + multiset{c})
  {
    hide Effect;
    hide Stored;
  }

  lemma AllLastStep(program: Program, specs: seq<ShardSpec>, ops: multiset<nat>, c: nat)
    requires c < |specs|
    ensures AllLast(program, specs, ops + multiset{c})
            <==> AllLast(program, specs, ops) && Lasts(program, specs[c], ops[c] + 1)
  {
    hide Lasts;
    LastsBefore(program, specs[c], ops[c]);
    if AllLast(program, specs, ops + multiset{c}) {
      assert (ops + multiset{c})[c] == ops[c] + 1;
      forall i | 0 <= i < |specs| ensures Lasts(program, specs[i], ops[i]) {
        assert Lasts(program, specs[i], (ops + multiset{c})[i]);
      }
    }
  }

  /** Any order of any cores can be scheduled as long as no seed runs out, and a core has done as
      many ops as it has turns. */
  lemma {:induction false} ScheduleOps(program: Program, specs: seq<ShardSpec>, schedule: seq<nat>)
    requires forall k :: 0 <= k < |schedule| ==> schedule[k] < |specs|
    ensures Feasible(program, specs, DoneEvents(schedule)) <==> AllLast(program, specs, multiset(schedule))
    ensures Feasible(program, specs, DoneEvents(schedule)) ==>
              AllRunning(specs, After(program, specs, DoneEvents(schedule)), multiset(schedule))
  {
    if schedule != [] {
      hide Feasible;
      hide After;
      hide Step;
      hide Enabled;
      hide Lasts;
      hide AllLast;
      hide AllRunning;
      var init, last := schedule[..|schedule| - 1], schedule[|schedule| - 1];
      assert schedule == init + [last];
      ScheduleOps(program, specs, init);
      assert DoneEvents(schedule) == DoneEvents(init) + [Done(last)];
      OneMoreEvent(program, specs, DoneEvents(init), Done(last));
      AllLastStep(program, specs, multiset(init), last);
      if Feasible(program, specs, DoneEvents(init)) {
        DoneStep(program, specs, After(program, specs, DoneEvents(init)), multiset(init), last);
      }
    }
  }

  lemma LastsBefore(program: Program, spec: ShardSpec, turns: nat)
    ensures Lasts(program, spec, turns + 1) ==> Lasts(program, spec, turns)
  {
  }

  /** An interleaving in which every worker takes m turns can happen if and only if no worker's seed
      runs out in m turns. After it the written region is exactly the first m*N blocks, without gap or
      overlap, and every byte is the planned one. */
  lemma EveryInterleavingTiles(program: Program, plan: Plan, schedule: seq<nat>, m: nat)
    requires plan.blockSize > 0 && TotalCores(plan.nodes) > 0
    requires forall k :: 0 <= k < |schedule| ==> schedule[k] < TotalCores(plan.nodes)
    requires forall i :: 0 <= i < TotalCores(plan.nodes) ==> multiset(schedule)[i] == m
    ensures Feasible(program, Fleet(plan), DoneEvents(schedule))
            <==> forall spec :: spec in Fleet(plan) ==> Lasts(program, spec, m)
    ensures program.Engine? ==> Feasible(program, Fleet(plan), DoneEvents(schedule))
    ensures Feasible(program, Fleet(plan), DoneEvents(schedule)) ==>
              var image := After(program, Fleet(plan), DoneEvents(schedule)).image;
              && (forall a: nat :: a in image <==> a < m * TotalCores(plan.nodes) * plan.blockSize)
              && (forall a: nat :: a in image ==> image[a] == PlannedByte(program, plan, a))
  {
    hide Fleet;
    hide After;
    hide Feasible;
    hide PlannedByte;
    GeneratedFleetIsLaid(plan);
    ScheduleOps(program, Fleet(plan), schedule);
    if Feasible(program, Fleet(plan), DoneEvents(schedule)) {
      var s := After(program, Fleet(plan), DoneEvents(schedule));
      forall a: nat
        ensures a in s.image <==> a < m * TotalCores(plan.nodes) * plan.blockSize
        ensures a in s.image ==> s.image[a] == PlannedByte(program, plan, a)
      {
        CompletedBlocksIntact(program, plan, DoneEvents(schedule), a);
        FirstBlocks(a, m, TotalCores(plan.nodes), plan.blockSize);
      }
    }
  }

  /** An address is in the first m*n blocks when its block's step is below m. */
  lemma FirstBlocks(a: nat, m: nat, n: nat, size: nat)
    requires n > 0 && size > 0
    ensures a < m * n * size <==> StepOf(BlockOf(a, size), n) < m
  {
    BelowMultiple(a, m * n, size);
    BelowMultiple(BlockOf(a, size), m, n);
  }

  /** Two runs in which every worker makes the same number of writes leave the same storage,
      byte for byte, in whatever order the workers were scheduled. */
  lemma ScheduleIndependence(program: Program, plan: Plan, first: seq<nat>, second: seq<nat>)
    requires plan.blockSize > 0 && TotalCores(plan.nodes) > 0
    requires forall k :: 0 <= k < |first| ==> first[k] < TotalCores(plan.nodes)
    requires multiset(first) == multiset(second)
    ensures Feasible(program, Fleet(plan), DoneEvents(first)) <==> Feasible(program, Fleet(plan), DoneEvents(second))
    ensures Feasible(program, Fleet(plan), DoneEvents(first)) ==>
              After(program, Fleet(plan), DoneEvents(first)).image == After(program, Fleet(plan), DoneEvents(second)).image
  {
    hide Fleet;
    hide After;
    hide Feasible;
    hide PlannedByte;
    hide BlockOf;
    GeneratedFleetIsLaid(plan);
    forall k | 0 <= k < |second| ensures second[k] < TotalCores(plan.nodes) {
      assert second[k] in multiset(first);
    }
    ScheduleOps(program, Fleet(plan), first);
    ScheduleOps(program, Fleet(plan), second);
    if Feasible(program, Fleet(plan), DoneEvents(first)) {
      var s, t := After(program, Fleet(plan), DoneEvents(first)), After(program, Fleet(plan), DoneEvents(second));
      forall a: nat
        ensures a in s.image <==> a in t.image
        ensures a in s.image ==> s.image[a] == t.image[a]
      {
        CompletedBlocksIntact(program, plan, DoneEvents(first), a);
        CompletedBlocksIntact(program, plan, DoneEvents(second), a);
      }
    }
  }

  /** When op `p` of one engine worker and op `q` of another write the same bytes into a whole word:
      in two even ops, which write zeros, always; in two odd ones never; and in an odd and an even one
      only if the odd one's seed happens to be the mutator's key. */
  lemma FleetPayloadsEqualIff(plan: Plan, i: nat, j: nat, p: nat, q: nat, w: nat)
    requires i < j < TotalCores(plan.nodes) <= WORD_SIZE && 8 * w + 8 <= plan.blockSize
    ensures |Fleet(plan)| == TotalCores(plan.nodes)
    ensures WordAt(EnginePayload(Fleet(plan)[i].seed, plan.blockSize, p), w)
            == WordAt(EnginePayload(Fleet(plan)[j].seed, plan.blockSize, q), w)
            <==> && (p % 2 == 1 ==> q % 2 == 0 && Fleet(plan)[i].seed == APPLY_KEY)
                 && (q % 2 == 1 ==> p % 2 == 0 && Fleet(plan)[j].seed == APPLY_KEY)
  {
    hide Fleet;
    hide WordAt;
    hide EnginePayload;
    GeneratedFleetIsLaid(plan);
    FleetSeedsDistinct(plan, i, j);
    PayloadsEqualIff(Fleet(plan)[i].seed, Fleet(plan)[j].seed, plan.blockSize, p, q, w);
  }
}
