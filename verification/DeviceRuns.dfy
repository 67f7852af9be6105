/** The interleaved threads over the memory of the devices: what a command wrote is what
    every poll publishes, in every interleaving, until an overlapping write
    (Dnp3.cpp, Modbus.cpp).

    Runs here are the runs of `Threads` whose good reads return what the device holds
    and whose writes go to a configured point. Which reads fail stays arbitrary; since a
    job names the outcome of its read when it starts, every real run is one of these. */
module DeviceRuns {
  import opened PointTypes
  import opened RegisterCodec
  import opened Modbus
  import opened Commands
  import opened PointState
  import opened Gateway
  import opened Threads
  import opened Publishing
  import opened Collisions

  /** A command's value on its way to the device of a point. */
  datatype Order = Register(x: real) | Bit(on: bool)

  /** One step of the machine; a device write says which point's registers or coil it is
      for, what it writes and how the connection behaves. */
  datatype Action = Other(event: Event) | Write(thread: nat, target: nat, order: Order, link: Link)

  datatype World = World(system: System, net: Network)

  function EventOf(a: Action): Event {
    match a
    case Other(e) => e
    case Write(t, _, _, _) => Step(t)
  }

  /** What the order makes the point read: the rounded value, the carried 32 bits, or
      the bit. */
  function ValueOf(f: Float32, p: ReadPoint, order: Order): real {
    match order
    case Register(x) => CommandedValue(f, p.kind, x)
    case Bit(on) => if on then 1.0 else 0.0
  }

  predicate Fits(p: ReadPoint, order: Order) {
    match order
    case Register(_) => IsHolding(p.kind)
    case Bit(_) => p.kind.CoilStatusBool?
  }

  /** Status and network after the write a point's own command makes. */
  function Written(f: Float32, net: Network, p: ReadPoint, order: Order, link: Link): (CommandStatus, Network) {
    match order
    case Register(x) => WriteHolding(f, net, CommandOf(p, HoldingRegister), x, link)
    case Bit(on) => WriteCoilBit(net, CommandOf(p, Coil), on, link)
  }

  /** A good read is of what the device holds. */
  predicate TrueRead(f: Float32, net: Network, p: ReadPoint, i: Instr) {
    i.ReadDevice? && i.o.Good? ==> Sample(f, net, p) == Some(i.o.value)
  }

  predicate Possible(f: Float32, points: seq<ReadPoint>, w: World, a: Action)
    requires WellFormed(points, w.system)
  {
    var g := w.system;
    && Enabled(points, g, EventOf(a))
    && match a
       case Other(Start(_, _)) => true
       case Other(Step(t)) =>
         var i := g.threads[t].code.head;
         !i.WriteDevice? && (t < |points| ==> TrueRead(f, w.net, points[t], i))
       case Write(t, k, order, _) =>
         g.threads[t].code.head.WriteDevice? && k < |points| && Fits(points[k], order)
  }

  function NextWorld(f: Float32, points: seq<ReadPoint>, w: World, a: Action): World
    requires WellFormed(points, w.system) && Possible(f, points, w, a)
  {
    World(Next(points, w.system, EventOf(a)),
          if a.Write? then Written(f, w.net, points[a.target], a.order, a.link).1 else w.net)
  }

  function RunWorld(f: Float32, points: seq<ReadPoint>, w: World, actions: seq<Action>): Option<World>
    requires WellFormed(points, w.system)
    decreases |actions|
  {
    if actions == [] then Some(w)
    else if !Possible(f, points, w, actions[0]) then None
    else RunWorld(f, points, NextWorld(f, points, w, actions[0]), actions[1..])
  }

  // ------------------------------------------------------------- these are runs of the machine

  lemma {:induction false} RunsAreReachable(
    f: Float32, points: seq<ReadPoint>, starts: nat -> int, w: World, actions: seq<Action>)
    requires Reachable(points, starts, w.system) && WellFormed(points, w.system)
    requires RunWorld(f, points, w, actions).Some?
    ensures Reachable(points, starts, RunWorld(f, points, w, actions).value.system)
    ensures WellFormed(points, RunWorld(f, points, w, actions).value.system)
    decreases |actions|
  {
    hide Reachable, Next, Enabled, Written;
    if actions != [] {
      NextReachable(points, starts, w.system, EventOf(actions[0]));
      RunsAreReachable(f, points, starts, NextWorld(f, points, w, actions[0]), actions[1..]);
    }
  }

  lemma NextReachable(points: seq<ReadPoint>, starts: nat -> int, g: System, e: Event)
    requires Reachable(points, starts, g) && WellFormed(points, g) && Enabled(points, g, e)
    ensures WellFormed(points, Next(points, g, e)) && Reachable(points, starts, Next(points, g, e))
  {
    ReachableDisciplined(points, starts, g);
    StepDisciplined(points, g, e);
    hide Reachable, Next, Enabled;
    assert [e][1..] == [] && Run(points, g, [e]) == Run(points, Next(points, g, e), []);
    RunReaches(points, starts, g, [e]);
  }

  // ------------------------------------------------------------- commands do happen

  /** A worker alone, with a write ahead of it, gets there. */
  lemma {:induction false} GetsToWrite(f: Float32, points: seq<ReadPoint>, w: World, t: nat) returns (actions: seq<Action>)
    requires WellFormed(points, w.system) && Disciplined(w.system) && |points| <= t < |w.system.threads|
    requires OthersIdle(w.system, t) && EffectsOf(w.system.threads[t].code).writes > 0
    ensures RunWorld(f, points, w, actions).Some?
    ensures var last := RunWorld(f, points, w, actions).value;
            && last.net == w.net && WellFormed(points, last.system) && |last.system.threads| == |w.system.threads|
            && last.system.threads[t].code.Then? && last.system.threads[t].code.head.WriteDevice?
    decreases w.system.threads[t].code
  {
    var g := w.system;
    assert Ordered(g.threads[t].held, g.threads[t].code) && g.threads[t].code.Then?;
    if g.threads[t].code.head.WriteDevice? {
      actions := [];
    } else {
      AloneIsEnabled(points, g, t);
      StepDisciplined(points, g, Step(t));
      var a := Other(Step(t));
      var next := NextWorld(f, points, w, a);
      assert EffectsOf(next.system.threads[t].code).writes == EffectsOf(g.threads[t].code).writes;
      var rest := GetsToWrite(f, points, next, t);
      actions := [a] + rest;
      assert actions[1..] == rest;
    }
  }

  /** From every quiet reachable state a worker can carry a command to any point that
      takes it as far as the write to the device, whatever the value and the connection. */
  lemma CommandsHappen(
    f: Float32, points: seq<ReadPoint>, starts: nat -> int, w: World, t: nat, k: nat, order: Order, link: Link)
    returns (actions: seq<Action>)
    requires Reachable(points, starts, w.system) && Quiet(w.system) && |points| <= t < |w.system.threads|
    requires k < |points| && Fits(points[k], order)
    ensures WellFormed(points, w.system) && RunWorld(f, points, w, actions).Some?
    ensures var last := RunWorld(f, points, w, actions).value;
            last.net == w.net && WellFormed(points, last.system) && Possible(f, points, last, Write(t, k, order, link))
  {
    ReachableDisciplined(points, starts, w.system);
    var job := if order.Register? then AnalogTransacted else CrobTransacted;
    JobEffects(job);
    var begin := Other(Start(t, job));
    StepDisciplined(points, w.system, Start(t, job));
    hide Reachable, CodeOf, EffectsOf;
    var next := NextWorld(f, points, w, begin);
    assert next.system.threads[t].code == CodeOf(job) && OthersIdle(next.system, t);
    var rest := GetsToWrite(f, points, next, t);
    actions := [begin] + rest;
    assert actions[1..] == rest;
  }

  // ------------------------------------------------------------- what stays in the device

  predicate SparesPoint(points: seq<ReadPoint>, a: Action, p: ReadPoint) {
    a.Write? && a.target < |points| ==> !Overlap(points[a.target], p)
  }

  /** No write of the run is to registers or a coil the point reads. */
  ghost predicate Spared(points: seq<ReadPoint>, actions: seq<Action>, p: ReadPoint) {
    forall a :: a in actions ==> SparesPoint(points, a, p)
  }

  lemma WrittenSample(f: Float32, net: Network, p: ReadPoint, order: Order, link: Link)
    requires Fits(p, order)
    ensures var (status, after) := Written(f, net, p, order, link);
            && (status == SUCCESS ==> Sample(f, after, p) == Some(ValueOf(f, p, order)))
            && (forall q :: !Overlap(p, q) ==> Sample(f, after, q) == Sample(f, net, q))
  {
    hide WriteHolding, WriteCoilBit, Sample, RoundHalfAway, Overlap, Addresses, CommandOf;
    CommandAddresses(p, HoldingRegister);
    CommandAddresses(p, Coil);
    match order
    case Register(x) => HoldingWriteRead(f, net, CommandOf(p, HoldingRegister), p, x, link);
    case Bit(on) => CoilWriteRead(f, net, CommandOf(p, Coil), p, on, link);
  }

  /** All reads of point i after its first n that succeeded returned v. */
  ghost predicate GoodReadsAre(h: seq<Outcome>, n: nat, v: real) {
    forall k :: n <= k < |h| && h[k].Good? ==> h[k].value == v
  }

  /** One step: what the point's device holds for it stays, and a good read returns it. */
  lemma StepReads(f: Float32, points: seq<ReadPoint>, w: World, a: Action, i: nat, n: nat, v: real)
    requires WellFormed(points, w.system) && Possible(f, points, w, a) && i < |points|
    requires SparesPoint(points, a, points[i]) && Sample(f, w.net, points[i]) == Some(v)
    requires n <= |w.system.history[i]| && GoodReadsAre(w.system.history[i], n, v)
    requires WellFormed(points, NextWorld(f, points, w, a).system)
    ensures var next := NextWorld(f, points, w, a);
            && Sample(f, next.net, points[i]) == Some(v)
            && n <= |next.system.history[i]| && GoodReadsAre(next.system.history[i], n, v)
  {
    hide Sample, Written, CodeOf;
    if a.Write? {
      WrittenSample(f, w.net, points[a.target], a.order, a.link);
    }
  }

  lemma {:induction false} RunReads(
    f: Float32, points: seq<ReadPoint>, starts: nat -> int, w: World, actions: seq<Action>, i: nat, n: nat, v: real)
    requires Reachable(points, starts, w.system) && WellFormed(points, w.system) && i < |points|
    requires RunWorld(f, points, w, actions).Some? && Spared(points, actions, points[i])
    requires Sample(f, w.net, points[i]) == Some(v)
    requires n <= |w.system.history[i]| && GoodReadsAre(w.system.history[i], n, v)
    ensures var last := RunWorld(f, points, w, actions).value;
            && WellFormed(points, last.system) && Sample(f, last.net, points[i]) == Some(v)
            && n <= |last.system.history[i]| && GoodReadsAre(last.system.history[i], n, v)
    decreases |actions|
  {
    hide Sample, Reachable, Possible, NextWorld, GoodReadsAre, SparesPoint;
    if actions != [] {
      assert actions[0] in actions;
      AfterReachable(f, points, starts, w, actions[0]);
      StepReads(f, points, w, actions[0], i, n, v);
      RunReads(f, points, starts, NextWorld(f, points, w, actions[0]), actions[1..], i, n, v);
    }
  }

  lemma AfterReachable(f: Float32, points: seq<ReadPoint>, starts: nat -> int, w: World, a: Action)
    requires Reachable(points, starts, w.system) && WellFormed(points, w.system) && Possible(f, points, w, a)
    ensures Reachable(points, starts, NextWorld(f, points, w, a).system)
    ensures WellFormed(points, NextWorld(f, points, w, a).system)
  {
    hide Reachable, Next, Enabled, Written;
    NextReachable(points, starts, w.system, EventOf(a));
  }

  // ------------------------------------------------------------- command, then polls, interleaved

  /** What the point's entry shows when its last read returned v. */
  function EntryOf(p: ReadPoint, v: real): DbValue {
    if IsDiscrete(p.kind) then BinaryValue(v != 0.0) else AnalogValue(v)
  }

  /** One of the last five reads, and not one of the first n, was good. */
  ghost predicate RecentlyGood(h: seq<Outcome>, n: nat) {
    exists j :: n <= j < |h| && |h| - j <= 5 && h[j].Good?
  }

  lemma RecentGoodIsShown(start: int, p: ReadPoint, h: seq<Outcome>, n: nat, v: real)
    requires RecentlyGood(h, n) && GoodReadsAre(h, n, v)
    ensures Entry(start, IsDiscrete(p.kind), h) == EntryOf(p, v)
  {
    FailuresMeaning(start, h);
    StoredValue(start, h);
    var s := PointState.After(start, h);
    hide PointState.After;
    var last := |h| - 1 - s.failures;
    assert IsLastGood(h, last) && n <= last;
  }

  lemma CommandTaken(f: Float32, points: seq<ReadPoint>, starts: nat -> int, w: World, command: Action)
    requires Reachable(points, starts, w.system) && WellFormed(points, w.system)
    requires Possible(f, points, w, command) && command.Write?
    requires Written(f, w.net, points[command.target], command.order, command.link).0 == SUCCESS
    ensures var i, next := command.target, NextWorld(f, points, w, command);
            && Reachable(points, starts, next.system) && WellFormed(points, next.system)
            && Sample(f, next.net, points[i]) == Some(ValueOf(f, points[i], command.order))
            && next.system.history[i] == w.system.history[i]
  {
    WrittenSample(f, w.net, points[command.target], command.order, command.link);
    AfterReachable(f, points, starts, w, command);
    HistoryKept(points, w.system, command.thread, command.target);
    hide Sample, Written, Reachable, ValueOf, Next;
  }

  /** What a command leaves visible of point i, whose history had n reads by then. */
  ghost predicate Shown(points: seq<ReadPoint>, g: System, i: nat, n: nat, v: real)
    requires WellFormed(points, g) && i < |points|
  {
    var h := g.history[i];
    && n <= |h| && GoodReadsAre(h, n, v)
    && (!Busy(g, i) && RecentlyGood(h, n) ==> g.db[KeyOf(points[i])] == EntryOf(points[i], v))
  }

  lemma ReadsAreShown(points: seq<ReadPoint>, starts: nat -> int, g: System, i: nat, n: nat, v: real)
    requires DistinctKeys(points) && Reachable(points, starts, g) && WellFormed(points, g) && i < |points|
    requires n <= |g.history[i]| && GoodReadsAre(g.history[i], n, v)
    ensures Shown(points, g, i, n, v)
  {
    var h := g.history[i];
    IdleShowsWholeHistory(points, starts, g, i);
    if RecentlyGood(h, n) {
      RecentGoodIsShown(starts(i), points[i], h, n, v);
    }
    hide RecentlyGood, GoodReadsAre, Reachable, Entry, EntryOf, DistinctKeys;
  }

  /** After a command to a point succeeded, with whatever the other threads do and until
      a write overlaps the point: every poll of it that reads well reads the commanded
      value; and between its polls, once one of its last five reads was good and made
      since the command, its entry shows that value. */
  lemma CommandThenPolls(
    f: Float32, points: seq<ReadPoint>, starts: nat -> int, w: World, command: Action, rest: seq<Action>)
    requires DistinctKeys(points) && Reachable(points, starts, w.system) && WellFormed(points, w.system)
    requires Possible(f, points, w, command) && command.Write?
    requires Written(f, w.net, points[command.target], command.order, command.link).0 == SUCCESS
    requires RunWorld(f, points, w, [command] + rest).Some? && Spared(points, rest, points[command.target])
    ensures var i, last := command.target, RunWorld(f, points, w, [command] + rest).value.system;
            && WellFormed(points, last)
            && Shown(points, last, i, |w.system.history[i]|, ValueOf(f, points[i], command.order))
  {
    var i, v, next := command.target, ValueOf(f, points[command.target], command.order), NextWorld(f, points, w, command);
    CommandTaken(f, points, starts, w, command);
    assert ([command] + rest)[1..] == rest;
    var n := |w.system.history[i]|;
    assert GoodReadsAre(next.system.history[i], n, v);
    hide Sample, Written, Reachable, Spared, ValueOf, Possible, NextWorld, GoodReadsAre, Shown, DistinctKeys;
    RunReads(f, points, starts, next, rest, i, n, v);
    RunsAreReachable(f, points, starts, next, rest);
    ReadsAreShown(points, starts, RunWorld(f, points, next, rest).value.system, i, n, v);
  }

  /** A device write is no read. */
  lemma HistoryKept(points: seq<ReadPoint>, g: System, t: nat, i: nat)
    requires WellFormed(points, g) && Enabled(points, g, Step(t)) && g.threads[t].code.head.WriteDevice? && i < |points|
    ensures Next(points, g, Step(t)).history[i] == g.history[i]
  {
  }
}
