/** The start barrier: callers announce their node, wait for the release flag and read the common
    start time when they wake. Announcing is one atomic step, since nothing is awaited before the
    wait; waking is another, at any later moment. */
module Barrier {
  import opened NodeNames

  datatype Config = Config(expected: int, leadMs: int, ids: seq<string>)

  /** The fields the callers share. */
  datatype Shared = Shared(ready: set<string>, released: bool, startUs: int)

  datatype Caller = Idle | Waiting | Returned(startUs: int)

  datatype State = State(shared: Shared, callers: seq<Caller>, starts: seq<int>)

  /** `nowUs` is the wall clock when the announcement runs. */
  datatype Event = Arrive(caller: nat, nowUs: int) | Wake(caller: nat)

  function Announce(shared: Shared, expected: int, leadMs: int, id: string, nowUs: int): Shared {
    var ready := shared.ready + {id};
    if |ready| >= expected then Shared(ready, true, nowUs + leadMs * 1000)
    else Shared(ready, shared.released, shared.startUs)
  }

  /** The servicer itself. */
  class ClusterSyncServicer<Request> {
    const expectedNodeCount: int
    const syncLeadTimeMs: int
    var readyNodes: map<string, Request>
    var releaseEvent: bool
    var synchronizedStartUs: int

    function View(): Shared
      reads this
    {
      Shared(readyNodes.Keys, releaseEvent, synchronizedStartUs)
    }

    constructor (expectedNodeCount: int, syncLeadTimeMs: int)
      ensures this.expectedNodeCount == expectedNodeCount && this.syncLeadTimeMs == syncLeadTimeMs
      ensures View() == Shared({}, false, 0)
    {
      this.expectedNodeCount := expectedNodeCount;
      this.syncLeadTimeMs := syncLeadTimeMs;
      readyNodes, releaseEvent, synchronizedStartUs := map[], false, 0;
    }

    /** `signal_ready` up to the wait. */
    method SignalReady(nodeId: string, request: Request, nowUs: int)
      modifies this
      ensures View() == Announce(old(View()), expectedNodeCount, syncLeadTimeMs, nodeId, nowUs)
      ensures readyNodes == old(readyNodes)[nodeId := request]
      ensures releaseEvent == (old(releaseEvent) || |readyNodes| >= expectedNodeCount)
      ensures synchronizedStartUs == if |readyNodes| >= expectedNodeCount then nowUs + 1000 * syncLeadTimeMs
                                     else old(synchronizedStartUs)
    {
      readyNodes := readyNodes[nodeId := request];
      assert readyNodes.Keys == old(readyNodes.Keys) + {nodeId};
      assert |readyNodes| == |readyNodes.Keys|;
      if |readyNodes| >= expectedNodeCount {
        synchronizedStartUs := nowUs + syncLeadTimeMs * 1000;
        releaseEvent := true;
      }
    }

    /** `signal_ready` after the wait. */
    method Respond() returns (startUs: int)
      requires releaseEvent
      ensures startUs == View().startUs
    {
      startUs := synchronizedStartUs;
    }
  }

  // ----- runs -----

  function Init(cfg: Config): State {
    State(Shared({}, false, 0), seq(|cfg.ids|, _ => Idle), [])
  }

  predicate Enabled(cfg: Config, s: State, e: Event) {
    && e.caller < |s.callers| && |s.callers| == |cfg.ids|
    && (e.Arrive? ==> s.callers[e.caller].Idle?)
    && (e.Wake? ==> s.callers[e.caller].Waiting? && s.shared.released)
  }

  function Step(cfg: Config, s: State, e: Event): State
    requires Enabled(cfg, s, e)
  {
    match e
    case Arrive(i, now) =>
      State(Announce(s.shared, cfg.expected, cfg.leadMs, cfg.ids[i], now), s.callers[i := Waiting], s.starts)
    case Wake(i) =>
      State(s.shared, s.callers[i := Returned(s.shared.startUs)], s.starts + [s.shared.startUs])
  }

  predicate Feasible(cfg: Config, s: State, events: seq<Event>)
    decreases |events|
  {
    events == [] || (Enabled(cfg, s, events[0]) && Feasible(cfg, Step(cfg, s, events[0]), events[1..]))
  }

  function After(cfg: Config, s: State, events: seq<Event>): State
    requires Feasible(cfg, s, events)
    decreases |events|
  {
    if events == [] then s else After(cfg, Step(cfg, s, events[0]), events[1..])
  }

  // ----- safety -----

  function ArrivedIds(cfg: Config, s: State): set<string>
    requires |s.callers| == |cfg.ids|
  {
    set i | 0 <= i < |cfg.ids| && !s.callers[i].Idle? :: cfg.ids[i]
  }

  ghost predicate Invariant(cfg: Config, s: State) {
    && |s.callers| == |cfg.ids|
    && s.shared.ready == ArrivedIds(cfg, s)
    && (s.shared.released <==> s.shared.ready != {} && |s.shared.ready| >= cfg.expected)
    && (forall i :: 0 <= i < |s.callers| && s.callers[i].Returned? ==> s.shared.released)
  }

  lemma StepInvariant(cfg: Config, s: State, e: Event)
    requires Invariant(cfg, s) && Enabled(cfg, s, e)
    ensures Invariant(cfg, Step(cfg, s, e))
    ensures s.shared.released ==> Step(cfg, s, e).shared.released
  {
    var t := Step(cfg, s, e);
    ArrivedStep(cfg, s, t, e.caller);
    SubsetSize(ArrivedIds(cfg, s), ArrivedIds(cfg, t));
  }

  lemma ArrivedStep(cfg: Config, s: State, t: State, i: nat)
    requires |s.callers| == |t.callers| == |cfg.ids| && i < |cfg.ids|
    requires !t.callers[i].Idle? && forall j :: 0 <= j < |cfg.ids| && j != i ==> t.callers[j] == s.callers[j]
    ensures ArrivedIds(cfg, t) == ArrivedIds(cfg, s) + {cfg.ids[i]}
    ensures !s.callers[i].Idle? ==> ArrivedIds(cfg, t) == ArrivedIds(cfg, s)
  {
    forall x ensures x in ArrivedIds(cfg, t) <==> x in ArrivedIds(cfg, s) + {cfg.ids[i]} {
      if x in ArrivedIds(cfg, s) {
        var j :| 0 <= j < |cfg.ids| && !s.callers[j].Idle? && cfg.ids[j] == x;
        assert !t.callers[j].Idle?;
      }
    }
  }

  lemma {:induction false} SubsetSize(a: set<string>, b: set<string>)
    requires a <= b
    ensures |a| <= |b|
  {
    if a != {} {
      var x :| x in a;
      SubsetSize(a - {x}, b - {x});
    }
  }

  /** In every run: the barrier opens exactly when enough distinct nodes have announced, repeated
      announcements count once, no caller returns before, and an open barrier stays open. */
  lemma {:induction false} BarrierSafety(cfg: Config, s: State, events: seq<Event>)
    requires Invariant(cfg, s) && Feasible(cfg, s, events)
    ensures Invariant(cfg, After(cfg, s, events))
    ensures s.shared.released ==> After(cfg, s, events).shared.released
    decreases |events|
  {
    hide Invariant;
    hide Step;
    hide Enabled;
    if events != [] {
      StepInvariant(cfg, s, events[0]);
      BarrierSafety(cfg, Step(cfg, s, events[0]), events[1..]);
    }
  }

  lemma InitInvariant(cfg: Config)
    ensures Invariant(cfg, Init(cfg))
  {
  }

  /** Whoever has returned, enough distinct nodes had announced themselves. */
  lemma NoEarlyReturn(cfg: Config, events: seq<Event>, i: nat)
    requires Feasible(cfg, Init(cfg), events) && i < |cfg.ids|
    ensures var s := After(cfg, Init(cfg), events);
            && |s.callers| == |cfg.ids|
            && (s.callers[i].Returned? ==> |ArrivedIds(cfg, s)| >= cfg.expected)
  {
    hide After;
    hide Feasible;
    hide Init;
    InitInvariant(cfg);
    BarrierSafety(cfg, Init(cfg), events);
  }

  // ----- the start time -----

  /** The clock at the last announcement of a run; `before` if there is none. */
  function LastAnnounced(events: seq<Event>, before: int): int {
    if events == [] then before
    else LastAnnounced(events[1..], match events[0] case Arrive(_, now) => now case Wake(_) => before)
  }

  lemma {:induction false} StartFollows(cfg: Config, s: State, events: seq<Event>, before: int)
    requires Invariant(cfg, s) && Feasible(cfg, s, events)
    requires s.shared.released ==> s.shared.startUs == before + 1000 * cfg.leadMs
    ensures var t := After(cfg, s, events);
            t.shared.released ==> t.shared.startUs == LastAnnounced(events, before) + 1000 * cfg.leadMs
    decreases |events|
  {
    hide Invariant;
    if events != [] {
      var e := events[0];
      StepInvariant(cfg, s, e);
      AnnouncedStart(cfg, s, e, before);
      StartFollows(cfg, Step(cfg, s, e), events[1..], if e.Arrive? then e.nowUs else before);
    }
  }

  lemma AnnouncedStart(cfg: Config, s: State, e: Event, before: int)
    requires Invariant(cfg, s) && Enabled(cfg, s, e)
    requires s.shared.released ==> s.shared.startUs == before + 1000 * cfg.leadMs
    ensures var t := Step(cfg, s, e);
            t.shared.released ==> t.shared.startUs == (if e.Arrive? then e.nowUs else before) + 1000 * cfg.leadMs
  {
    StepInvariant(cfg, s, e);
  }

  /** In every run, while the barrier is open the start time lies the lead time after the last
      announcement, and a caller that wakes now gets exactly that. */
  lemma StartIsLeadAfterLastAnnouncement(cfg: Config, events: seq<Event>, i: nat)
    requires Feasible(cfg, Init(cfg), events)
    ensures var s := After(cfg, Init(cfg), events);
            && (s.shared.released ==> s.shared.startUs == LastAnnounced(events, 0) + 1000 * cfg.leadMs)
            && (Enabled(cfg, s, Wake(i)) ==>
                  Step(cfg, s, Wake(i)).callers[i] == Returned(LastAnnounced(events, 0) + 1000 * cfg.leadMs))
  {
    hide Invariant;
    hide Feasible;
    hide After;
    InitInvariant(cfg);
    StartFollows(cfg, Init(cfg), events, 0);
  }

  // ----- agreement -----

  ghost predicate Agree(s: State) {
    forall i, j :: 0 <= i < |s.callers| && 0 <= j < |s.callers| && s.callers[i].Returned? && s.callers[j].Returned?
                   ==> s.callers[i].startUs == s.callers[j].startUs
  }

  ghost predicate NobodyIdle(s: State) {
    forall i :: 0 <= i < |s.callers| ==> !s.callers[i].Idle?
  }

  ghost predicate ReadCurrent(s: State) {
    forall i :: 0 <= i < |s.callers| && s.callers[i].Returned? ==> s.callers[i].startUs == s.shared.startUs
  }

  lemma {:induction false} NoLateArrival(cfg: Config, s: State, events: seq<Event>)
    requires NobodyIdle(s) && ReadCurrent(s) && Feasible(cfg, s, events)
    ensures ReadCurrent(After(cfg, s, events)) && After(cfg, s, events).shared == s.shared
    decreases |events|
  {
    if events != [] {
      NoLateArrival(cfg, Step(cfg, s, events[0]), events[1..]);
    }
  }

  /** When the barrier has just opened, all callers are sure to get one start time exactly if
      nobody can announce any more: a late announcement moves the start time. */
  lemma AgreementOnceOpen(cfg: Config, s: State, i: nat)
    requires Invariant(cfg, s) && s.shared.released
    requires forall j :: 0 <= j < |s.callers| ==> !s.callers[j].Returned?
    requires i < |s.callers| && s.callers[i].Waiting?
    ensures (forall events :: Feasible(cfg, s, events) ==> Agree(After(cfg, s, events))) <==> NobodyIdle(s)
  {
    if NobodyIdle(s) {
      forall events | Feasible(cfg, s, events) ensures Agree(After(cfg, s, events)) {
        NoLateArrival(cfg, s, events);
      }
    } else {
      var j :| 0 <= j < |s.callers| && s.callers[j].Idle?;
      LateArrival(cfg, s, i, j);
    }
  }

  lemma LateArrival(cfg: Config, s: State, i: nat, j: nat)
    requires |s.callers| == |cfg.ids| && s.shared.released && cfg.expected <= |s.shared.ready|
    requires i < |s.callers| && s.callers[i].Waiting? && j < |s.callers| && s.callers[j].Idle?
    ensures exists events :: Feasible(cfg, s, events) && !Agree(After(cfg, s, events))
  {
    var e1, e2, e3 := Wake(i), Arrive(j, s.shared.startUs - cfg.leadMs * 1000 + 1), Wake(j);
    SubsetSize(s.shared.ready, s.shared.ready + {cfg.ids[j]});
    var s1 := Step(cfg, s, e1);
    var s2 := Step(cfg, s1, e2);
    var s3 := Step(cfg, s2, e3);
    FirstStep(cfg, s2, e3, []);
    FirstStep(cfg, s1, e2, [e3] + []);
    FirstStep(cfg, s, e1, [e2] + ([e3] + []));
    assert s3.callers[i].startUs != s3.callers[j].startUs;
  }

  lemma FirstStep(cfg: Config, s: State, e: Event, rest: seq<Event>)
    requires Enabled(cfg, s, e) && Feasible(cfg, Step(cfg, s, e), rest)
    ensures Feasible(cfg, s, [e] + rest)
    ensures After(cfg, s, [e] + rest) == After(cfg, Step(cfg, s, e), rest)
  {
    assert ([e] + rest)[1..] == rest;
  }

  /** The ids the callers other than `j` bring. */
  function Others(cfg: Config, j: nat): set<string> {
    set i | 0 <= i < |cfg.ids| && i != j :: cfg.ids[i]
  }

  /** Nobody can come late: without any one caller the others cannot open the barrier, or there
      are no others. */
  ghost predicate NobodySpare(cfg: Config) {
    forall j :: 0 <= j < |cfg.ids| ==> Others(cfg, j) == {} || |Others(cfg, j)| < cfg.expected
  }

  ghost predicate OpensLast(cfg: Config, s: State) {
    && Invariant(cfg, s)
    && ReadCurrent(s)
    && (s.shared.released ==> NobodyIdle(s))
  }

  lemma OpenMeansNobodyIdle(cfg: Config, s: State)
    requires NobodySpare(cfg) && Invariant(cfg, s) && s.shared.released
    ensures NobodyIdle(s)
  {
    forall j | 0 <= j < |s.callers| ensures !s.callers[j].Idle? {
      if s.callers[j].Idle? {
        assert ArrivedIds(cfg, s) <= Others(cfg, j);
        SubsetSize(ArrivedIds(cfg, s), Others(cfg, j));
      }
    }
  }

  lemma OpensLastStep(cfg: Config, s: State, e: Event)
    requires NobodySpare(cfg) && OpensLast(cfg, s) && Enabled(cfg, s, e)
    ensures OpensLast(cfg, Step(cfg, s, e))
  {
    hide ArrivedIds;
    hide NobodySpare;
    StepInvariant(cfg, s, e);
    if Step(cfg, s, e).shared.released {
      OpenMeansNobodyIdle(cfg, Step(cfg, s, e));
    }
  }

  lemma {:induction false} OpensLastRun(cfg: Config, s: State, events: seq<Event>)
    requires NobodySpare(cfg) && OpensLast(cfg, s) && Feasible(cfg, s, events)
    ensures OpensLast(cfg, After(cfg, s, events))
    decreases |events|
  {
    hide OpensLast;
    hide NobodySpare;
    hide Enabled;
    hide Step;
    if events != [] {
      OpensLastStep(cfg, s, events[0]);
      OpensLastRun(cfg, Step(cfg, s, events[0]), events[1..]);
    }
  }

  lemma {:induction false} Concatenated(cfg: Config, s: State, xs: seq<Event>, ys: seq<Event>)
    requires Feasible(cfg, s, xs) && Feasible(cfg, After(cfg, s, xs), ys)
    ensures Feasible(cfg, s, xs + ys)
    ensures After(cfg, s, xs + ys) == After(cfg, After(cfg, s, xs), ys)
    decreases |xs|
  {
    hide Enabled;
    hide Step;
    if xs == [] {
      assert xs + ys == ys;
    } else {
      Concatenated(cfg, Step(cfg, s, xs[0]), xs[1..], ys);
      assert (xs + ys)[1..] == xs[1..] + ys;
    }
  }

  /** Of the first `k` callers all but `j` announce themselves. */
  lemma {:induction false} EveryoneElseArrives(cfg: Config, j: nat, k: nat) returns (events: seq<Event>)
    requires k <= |cfg.ids|
    ensures Feasible(cfg, Init(cfg), events)
    ensures var s := After(cfg, Init(cfg), events);
            && |s.callers| == |cfg.ids|
            && forall i :: 0 <= i < |cfg.ids| ==> s.callers[i] == if i < k && i != j then Waiting else Idle
  {
    events := [];
    if k > 0 {
      events := EveryoneElseArrives(cfg, j, k - 1);
      if k - 1 != j {
        var e, s := Arrive(k - 1, 0), After(cfg, Init(cfg), events);
        assert Feasible(cfg, Step(cfg, s, e), []);
        FirstStep(cfg, s, e, []);
        Concatenated(cfg, Init(cfg), events, [e] + []);
        events := events + ([e] + []);
      }
    }
  }

  lemma LateRun(cfg: Config, j: nat) returns (events: seq<Event>)
    requires j < |cfg.ids| && Others(cfg, j) != {} && |Others(cfg, j)| >= cfg.expected
    ensures Feasible(cfg, Init(cfg), events) && !Agree(After(cfg, Init(cfg), events))
  {
    hide Feasible;
    hide After;
    hide Init;
    hide Agree;
    var arrivals := EveryoneElseArrives(cfg, j, |cfg.ids|);
    var s := After(cfg, Init(cfg), arrivals);
    InitInvariant(cfg);
    BarrierSafety(cfg, Init(cfg), arrivals);
    assert ArrivedIds(cfg, s) == Others(cfg, j);
    var i :| 0 <= i < |cfg.ids| && i != j;
    LateArrival(cfg, s, i, j);
    var rest :| Feasible(cfg, s, rest) && !Agree(After(cfg, s, rest));
    Concatenated(cfg, Init(cfg), arrivals, rest);
    events := arrivals + rest;
  }

  /** All callers that return are sure to hold one start time, in every run, exactly when no
      caller is spare: if the others are enough to open the barrier without `j`, then `j` can
      announce itself after one of them has returned, and moves the start time. */
  lemma AgreementIff(cfg: Config)
    ensures (forall events :: Feasible(cfg, Init(cfg), events) ==> Agree(After(cfg, Init(cfg), events)))
            <==> NobodySpare(cfg)
  {
    hide Feasible;
    hide After;
    hide Others;
    if NobodySpare(cfg) {
      InitInvariant(cfg);
      forall events | Feasible(cfg, Init(cfg), events) ensures Agree(After(cfg, Init(cfg), events)) {
        OpensLastRun(cfg, Init(cfg), events);
      }
    } else {
      var j :| 0 <= j < |cfg.ids| && !(Others(cfg, j) == {} || |Others(cfg, j)| < cfg.expected);
      var events := LateRun(cfg, j);
    }
  }

  // ----- progress -----

  function Pending(callers: seq<Caller>): nat {
    if callers == [] then 0
    else Pending(callers[..|callers| - 1]) +
         match callers[|callers| - 1] case Idle => 2 case Waiting => 1 case Returned(_) => 0
  }

  lemma {:induction false} PendingUpdate(callers: seq<Caller>, i: nat, c: Caller)
    requires i < |callers|
    ensures Pending(callers[i := c]) == Pending(callers) - Pending([callers[i]]) + Pending([c])
  {
    var n := |callers| - 1;
    assert [c][..0] == [] && [callers[i]][..0] == [];
    if i == n {
      assert callers[i := c][..n] == callers[..n];
    } else {
      PendingUpdate(callers[..n], i, c);
      assert callers[i := c][..n] == callers[..n][i := c];
    }
  }

  /** Every step uses up one unit of pending arrivals and wakes. */
  lemma {:induction false} StepsAreBounded(cfg: Config, s: State, events: seq<Event>)
    requires Feasible(cfg, s, events)
    ensures Pending(After(cfg, s, events).callers) + |events| == Pending(s.callers)
    decreases |events|
  {
    if events != [] {
      var e := events[0];
      StepsAreBounded(cfg, Step(cfg, s, e), events[1..]);
      PendingUpdate(s.callers, e.caller, Step(cfg, s, e).callers[e.caller]);
      assert forall c: Caller :: [c][..0] == [];
    }
  }

  ghost predicate Stuck(cfg: Config, s: State) {
    forall e: Event :: !Enabled(cfg, s, e)
  }

  ghost predicate AllReturned(s: State) {
    forall i :: 0 <= i < |s.callers| ==> s.callers[i].Returned?
  }

  function AllIds(cfg: Config): set<string> {
    set i | 0 <= i < |cfg.ids| :: cfg.ids[i]
  }

  /** A run that can go no further has returned every caller exactly if the callers bring enough
      distinct node ids or there are none; otherwise it hangs. */
  lemma CompletionIff(cfg: Config, events: seq<Event>)
    requires Feasible(cfg, Init(cfg), events) && Stuck(cfg, After(cfg, Init(cfg), events))
    ensures NobodyIdle(After(cfg, Init(cfg), events))
    ensures AllReturned(After(cfg, Init(cfg), events)) <==> cfg.ids == [] || |AllIds(cfg)| >= cfg.expected
  {
    hide Feasible;
    hide After;
    hide Init;
    InitInvariant(cfg);
    BarrierSafety(cfg, Init(cfg), events);
    StuckState(cfg, After(cfg, Init(cfg), events));
  }

  lemma StuckState(cfg: Config, s: State)
    requires Invariant(cfg, s) && Stuck(cfg, s)
    ensures NobodyIdle(s)
    ensures AllReturned(s) <==> cfg.ids == [] || |AllIds(cfg)| >= cfg.expected
  {
    forall i | 0 <= i < |s.callers| ensures !s.callers[i].Idle? {
      assert !Enabled(cfg, s, Arrive(i, 0));
    }
    assert ArrivedIds(cfg, s) == AllIds(cfg);
    if cfg.ids == [] {
      return;
    }
    assert cfg.ids[0] in s.shared.ready;
    forall i | 0 <= i < |s.callers| && s.shared.released ensures s.callers[i].Returned? {
      assert !Enabled(cfg, s, Wake(i));
    }
    assert AllReturned(s) ==> s.callers[0].Returned?;
  }

  // ----- a clock that does not run backwards -----

  predicate Clocked(events: seq<Event>, now: int) {
    events == [] ||
    match events[0]
    case Arrive(_, t) => now <= t && Clocked(events[1..], t)
    case Wake(_) => Clocked(events[1..], now)
  }

  ghost predicate Ordered(starts: seq<int>) {
    forall p, q :: 0 <= p < q < |starts| ==> starts[p] <= starts[q]
  }

  ghost predicate ReturnsOrdered(cfg: Config, s: State, now: int) {
    && Ordered(s.starts)
    && (forall p :: 0 <= p < |s.starts| ==> s.starts[p] <= s.shared.startUs)
    && (s.shared.released ==> s.shared.startUs <= now + cfg.leadMs * 1000)
    && (!s.shared.released ==> s.starts == [])
  }

  function NextClock(e: Event, now: int): int {
    match e
    case Arrive(_, t) => t
    case Wake(_) => now
  }

  lemma ClockStep(cfg: Config, s: State, e: Event, now: int)
    requires ReturnsOrdered(cfg, s, now) && Enabled(cfg, s, e) && now <= NextClock(e, now)
    ensures ReturnsOrdered(cfg, Step(cfg, s, e), NextClock(e, now))
  {
  }

  lemma {:induction false} OrderedRun(cfg: Config, s: State, events: seq<Event>, now: int)
    requires ReturnsOrdered(cfg, s, now) && Feasible(cfg, s, events) && Clocked(events, now)
    ensures Ordered(After(cfg, s, events).starts)
    decreases |events|
  {
    hide Step;
    hide Enabled;
    if events != [] {
      ClockStep(cfg, s, events[0], now);
      OrderedRun(cfg, Step(cfg, s, events[0]), events[1..], NextClock(events[0], now));
    }
  }

  /** Callers that return later never get an earlier start time, even when nodes announce again. */
  lemma LaterReturnsLaterStart(cfg: Config, events: seq<Event>, now: int)
    requires Feasible(cfg, Init(cfg), events) && Clocked(events, now)
    ensures Ordered(After(cfg, Init(cfg), events).starts)
  {
    OrderedRun(cfg, Init(cfg), events, now);
  }

  // ----- the emulator's gather -----

  function EmulatorConfig(nodes: nat, leadMs: int): Config {
    Config(nodes, leadMs, seq(nodes, i requires 0 <= i < nodes => PaddedName(i)))
  }

  lemma {:induction false} DistinctNames(nodes: nat, k: nat)
    requires k <= nodes
    ensures |set i | 0 <= i < k :: PaddedName(i)| == k
  {
    hide PaddedName;
    if k > 0 {
      DistinctNames(nodes, k - 1);
      var fewer := set i | 0 <= i < k - 1 :: PaddedName(i);
      assert (set i | 0 <= i < k :: PaddedName(i)) == fewer + {PaddedName(k - 1)};
      forall i | 0 <= i < k - 1 ensures PaddedName(i) != PaddedName(k - 1) {
        NamesInjective(i, k - 1);
      }
    }
  }

  lemma EmulatorIds(nodes: nat, leadMs: int)
    ensures AllIds(EmulatorConfig(nodes, leadMs)) == set i | 0 <= i < nodes :: PaddedName(i)
  {
    hide PaddedName;
    var cfg := EmulatorConfig(nodes, leadMs);
    forall x | x in set i | 0 <= i < nodes :: PaddedName(i) ensures x in AllIds(cfg) {
      var i :| 0 <= i < nodes && PaddedName(i) == x;
      assert cfg.ids[i] == x;
    }
  }

  /** The emulator waits for all its nodes, which have different names. */
  lemma EmulatorNobodySpare(nodes: nat, leadMs: int)
    ensures NobodySpare(EmulatorConfig(nodes, leadMs))
  {
    hide PaddedName;
    var cfg := EmulatorConfig(nodes, leadMs);
    DistinctNames(nodes, nodes);
    EmulatorIds(nodes, leadMs);
    forall j | 0 <= j < nodes ensures |Others(cfg, j)| < nodes {
      forall i | 0 <= i < nodes && i != j ensures PaddedName(i) != PaddedName(j) {
        NamesInjective(i, j);
      }
      assert cfg.ids[j] in AllIds(cfg) && Others(cfg, j) <= AllIds(cfg) - {cfg.ids[j]};
      SubsetSize(Others(cfg, j), AllIds(cfg) - {cfg.ids[j]});
    }
  }

  /** The emulator's gather, under every schedule: it takes at most 2N steps, a schedule that can
      go no further has taken all 2N and returned every caller, and all callers that have returned
      at any time hold the same start time. */
  lemma {:induction false} GatherCompletes(nodes: nat, leadMs: int, events: seq<Event>)
    requires Feasible(EmulatorConfig(nodes, leadMs), Init(EmulatorConfig(nodes, leadMs)), events)
    ensures var cfg := EmulatorConfig(nodes, leadMs);
            var s := After(cfg, Init(cfg), events);
            && |events| <= 2 * nodes
            && Agree(s)
            && (Stuck(cfg, s) ==> AllReturned(s) && |events| == 2 * nodes)
  {
    hide Feasible;
    hide After;
    hide PaddedName;
    hide Pending;
    var cfg := EmulatorConfig(nodes, leadMs);
    var s := After(cfg, Init(cfg), events);
    StepsAreBounded(cfg, Init(cfg), events);
    AllPending(Init(cfg).callers);
    EmulatorNobodySpare(nodes, leadMs);
    AgreementIff(cfg);
    if Stuck(cfg, s) {
      DistinctNames(nodes, nodes);
      EmulatorIds(nodes, leadMs);
      CompletionIff(cfg, events);
      NonePending(s.callers);
    }
  }

  lemma {:induction false} AllPending(callers: seq<Caller>)
    requires forall i :: 0 <= i < |callers| ==> callers[i].Idle?
    ensures Pending(callers) == 2 * |callers|
  {
    if callers != [] {
      AllPending(callers[..|callers| - 1]);
    }
  }

  lemma {:induction false} NonePending(callers: seq<Caller>)
    requires forall i :: 0 <= i < |callers| ==> callers[i].Returned?
    ensures Pending(callers) == 0
  {
    if callers != [] {
      NonePending(callers[..|callers| - 1]);
    }
  }
}
