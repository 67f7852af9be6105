/** Distinct DNP3 keys are not only enough for non-interference but needed: with two
    points on one key there is a run that leaves one of them showing the other. */
module Collisions {
  import opened PointTypes
  import opened PointState
  import opened Threads
  import opened Publishing

  // ------------------------------------------------------------- one thread alone

  function RunView(binary: bool, code: Code, v: View): View
    decreases code
  {
    match code
    case Done => v
    case Then(i, k) => RunView(binary, k, OnView(binary, i, v))
  }

  /** The view once a whole poll is over. */
  function PolledView(binary: bool, o: Outcome, v: View): View {
    var next := OnOutcome(v.cell, o);
    View(next.(changed := false), Published(binary, next), Published(binary, next), v.history + [o])
  }

  lemma LogCallIsSilent(binary: bool, k: Code, v: View)
    ensures RunView(binary, LogCall(k), v) == RunView(binary, k, v)
  {
    assert RunView(binary, Then(AppendLog, Then(Release(LogLock), k)), v) == RunView(binary, k, v);
  }

  lemma ReadPartEffect(binary: bool, o: Outcome, k: Code, v: View)
    ensures RunView(binary, ReadPart(o, k), v) == RunView(binary, k, OnView(binary, ReadDevice(o), v))
  {
    var read := OnView(binary, ReadDevice(o), v);
    LogCallIsSilent(binary, k, read);
    var logged := if o.Bad? then LogCall(k) else k;
    assert RunView(binary, Then(Release(ModbusLock), logged), read) == RunView(binary, k, read);
  }

  lemma UpdatePartEffect(binary: bool, o: Outcome, k: Code, v: View)
    ensures RunView(binary, UpdatePart(o, k), v) == RunView(binary, k, v.(cell := OnOutcome(v.cell, o)))
  {
    var stored := if o.Good? then OnView(binary, StoreValue(o.value), v) else v;
    var settled := OnView(binary, Settle(o), stored);
    assert settled == v.(cell := OnOutcome(v.cell, o));
    LogCallIsSilent(binary, Then(Release(DataLock), k), settled);
    assert RunView(binary, Then(Release(DataLock), k), settled) == RunView(binary, k, settled);
    assert RunView(binary, SettlePart(o, k), stored) == RunView(binary, k, settled);
  }

  lemma PublishPartEffect(binary: bool, v: View)
    ensures RunView(binary, PublishPart(Done), v) ==
            v.(update := Published(binary, v.cell), entry := Published(binary, v.cell), cell := v.cell.(changed := false))
  {
  }

  lemma PollEffect(binary: bool, o: Outcome, v: View)
    ensures RunView(binary, CodeOf(Poll(o)), v) == PolledView(binary, o, v)
  {
    var read := OnView(binary, ReadDevice(o), v);
    ReadPartEffect(binary, o, UpdatePart(o, PublishPart(Done)), v);
    UpdatePartEffect(binary, o, PublishPart(Done), read);
    PublishPartEffect(binary, read.(cell := OnOutcome(read.cell, o)));
    hide ReadPart, UpdatePart, PublishPart;
  }

  // ------------------------------------------------------------- alone in the system

  function WithView(points: seq<ReadPoint>, g: System, t: nat, th: Thread, v: View): System
    requires WellFormed(points, g) && t < |points|
  {
    System(g.threads[t := th.(update := v.update)], g.cells[t := v.cell],
           g.db[KeyOf(points[t]) := v.entry], g.history[t := v.history])
  }

  /** The system after thread t has run its code to the end alone. */
  function RunAlone(points: seq<ReadPoint>, g: System, t: nat): System
    requires WellFormed(points, g) && t < |points|
  {
    var v := RunView(IsDiscrete(points[t].kind), g.threads[t].code, ViewOf(points, g, t));
    WithView(points, g, t, g.threads[t].(code := Done, held := {}), v)
  }

  ghost predicate OthersIdle(g: System, t: nat) {
    forall u :: 0 <= u < |g.threads| && u != t ==> g.threads[u].code.Done? && g.threads[u].held == {}
  }

  lemma NextAlone(points: seq<ReadPoint>, g: System, t: nat)
    requires WellFormed(points, g) && t < |points| && g.threads[t].code.Then? && Enabled(points, g, Step(t))
    ensures WellFormed(points, Next(points, g, Step(t)))
    ensures RunAlone(points, Next(points, g, Step(t)), t) == RunAlone(points, g, t)
  {
    hide OnView;
    var next := Next(points, g, Step(t));
    assert ViewOf(points, next, t) == OnView(IsDiscrete(points[t].kind), g.threads[t].code.head, ViewOf(points, g, t));
  }

  lemma {:induction false} AloneFinishes(points: seq<ReadPoint>, g: System, t: nat) returns (events: seq<Event>)
    requires WellFormed(points, g) && Disciplined(g) && t < |points| && OthersIdle(g, t)
    ensures Run(points, g, events) == Some(RunAlone(points, g, t))
    decreases g.threads[t].code
  {
    assert Ordered(g.threads[t].held, g.threads[t].code);
    hide OnView, RunAlone, Disciplined;
    if g.threads[t].code.Done? {
      events := [];
      DoneAlone(points, g, t);
    } else {
      AloneIsEnabled(points, g, t);
      NextAlone(points, g, t);
      StepDisciplined(points, g, Step(t));
      var next := Next(points, g, Step(t));
      var rest := AloneFinishes(points, next, t);
      events := [Step(t)] + rest;
      assert events[1..] == rest;
    }
  }

  lemma DoneAlone(points: seq<ReadPoint>, g: System, t: nat)
    requires WellFormed(points, g) && t < |points| && g.threads[t].code.Done? && g.threads[t].held == {}
    ensures RunAlone(points, g, t) == g
  {
  }

  lemma AloneIsEnabled(points: seq<ReadPoint>, g: System, t: nat)
    requires t < |g.threads| && OthersIdle(g, t) && g.threads[t].code.Then?
    requires Ordered(g.threads[t].held, g.threads[t].code)
    ensures Enabled(points, g, Step(t))
  {
  }

  // ------------------------------------------------------------- polls one after another

  function AfterPoll(points: seq<ReadPoint>, g: System, t: nat, o: Outcome): System
    requires WellFormed(points, g) && t < |points|
  {
    WithView(points, g, t, g.threads[t], PolledView(IsDiscrete(points[t].kind), o, ViewOf(points, g, t)))
  }

  lemma PollReaches(points: seq<ReadPoint>, starts: nat -> int, g: System, t: nat, o: Outcome)
    requires Reachable(points, starts, g) && Quiet(g) && t < |points|
    ensures WellFormed(points, g)
    ensures Reachable(points, starts, AfterPoll(points, g, t, o)) && Quiet(AfterPoll(points, g, t, o))
  {
    ReachableDisciplined(points, starts, g);
    hide Reachable, CodeOf, RunView, AfterPoll, RunAlone;
    var begun := Next(points, g, Start(t, Poll(o)));
    StepDisciplined(points, g, Start(t, Poll(o)));
    PollEffect(IsDiscrete(points[t].kind), o, ViewOf(points, g, t));
    BegunAlone(points, g, t, o);
    var steps := AloneFinishes(points, begun, t);
    var events := [Start(t, Poll(o))] + steps;
    assert events[1..] == steps;
    assert Run(points, g, events) == Some(AfterPoll(points, g, t, o));
    RunReaches(points, starts, g, events);
  }

  lemma BegunAlone(points: seq<ReadPoint>, g: System, t: nat, o: Outcome)
    requires WellFormed(points, g) && Quiet(g) && t < |points|
    requires RunView(IsDiscrete(points[t].kind), CodeOf(Poll(o)), ViewOf(points, g, t)) ==
             PolledView(IsDiscrete(points[t].kind), o, ViewOf(points, g, t))
    ensures var begun := Next(points, g, Start(t, Poll(o)));
            && WellFormed(points, begun) && OthersIdle(begun, t)
            && RunAlone(points, begun, t) == AfterPoll(points, g, t, o)
            && Quiet(AfterPoll(points, g, t, o))
  {
  }

  /** From a quiet reachable state a point can poll, alone, to another. */
  lemma PollAlone(points: seq<ReadPoint>, starts: nat -> int, g: System, t: nat, o: Outcome) returns (next: System)
    requires Reachable(points, starts, g) && Quiet(g) && t < |points|
    ensures WellFormed(points, g)
    ensures Reachable(points, starts, next) && Quiet(next) && WellFormed(points, next)
    ensures next.history == g.history[t := g.history[t] + [o]]
    ensures next.cells == g.cells[t := Clean(OnOutcome(g.cells[t], o))]
    ensures next.db[KeyOf(points[t])] == Published(IsDiscrete(points[t].kind), OnOutcome(g.cells[t], o))
  {
    hide Reachable, Quiet;
    PollReaches(points, starts, g, t, o);
    next := AfterPoll(points, g, t, o);
  }

  /** Point i reads 1 twice, then point j on the same key fails once. */
  lemma CollidingRun(points: seq<ReadPoint>, starts: nat -> int, i: nat, j: nat) returns (g: System)
    requires i < j < |points| && KeyOf(points[i]) == KeyOf(points[j])
    ensures Reachable(points, starts, g) && WellFormed(points, g)
    ensures g.history[i] == [Good(1.0, 0), Good(1.0, 0)]
    ensures g.db[KeyOf(points[i])] == Published(IsDiscrete(points[j].kind), OnFailure(Initial(starts(j)), 0))
  {
    g := Init(points, starts, 0);
    assert Run(points, g, []) == Some(g);
    assert Reachable(points, starts, g) && Quiet(g);
    assert g.history[i] == [] && g.cells[j] == Initial(starts(j));
    hide Reachable, Quiet, Init, Published, OnSuccess, OnFailure, KeyOf;
    g := PollAlone(points, starts, g, i, Good(1.0, 0));
    g := PollAlone(points, starts, g, i, Good(1.0, 0));
    g := PollAlone(points, starts, g, j, Bad(0));
  }

  /** Then the shared entry shows j's zero while both of i's readings were 1. */
  lemma CollisionInterferes(points: seq<ReadPoint>, i: nat, j: nat)
    requires i < j < |points| && KeyOf(points[i]) == KeyOf(points[j])
    ensures !NonInterference(points)
  {
    hide Reachable;
    var starts: nat -> int := _ => 0;
    var g := CollidingRun(points, starts, i, j);
    OnesShowOne(starts(i), IsDiscrete(points[i].kind));
    assert !EntryFollows(points, starts, g, i);
  }

  lemma OnesShowOne(start: int, binary: bool)
    ensures var one := Good(1.0, 0);
            && Entry(start, binary, [one, one]) == (if binary then BinaryValue(true) else AnalogValue(1.0))
            && Entry(start, binary, Front([one, one])) == (if binary then BinaryValue(true) else AnalogValue(1.0))
  {
  }

  /** Every entry follows its own point in every reachable state if and only if no
      two points share a DNP3 key. */
  lemma NonInterferenceExactly(points: seq<ReadPoint>)
    ensures NonInterference(points) <==> DistinctKeys(points)
  {
    if DistinctKeys(points) {
      DistinctDoNotInterfere(points);
    } else {
      var i, j :| 0 <= i < j < |points| && KeyOf(points[i]) == KeyOf(points[j]);
      CollisionInterferes(points, i, j);
    }
  }
}
