/** The running gateway as a state machine: one polling thread per point and any
    number of command, console and page threads, interleaved step by step over four
    mutexes (Dnp3.cpp, Modbus.cpp, Interface.cpp, Log.cpp, Main.cpp).

    A job is one straight path through the code of a thread; which path is taken
    (the outcome of a read, an unmapped index, a refused connection) is arbitrary. */
module Threads {
  import opened PointTypes
  import opened PointState
  import opened Gateway

  // ------------------------------------------------------------- the code

  datatype Lock = Dnp3UpdateLock | ModbusLock | DataLock | LogLock

  datatype Instr =
    | Acquire(lock: Lock)
    | Release(lock: Lock)
    | ReadDevice(o: Outcome)   // the Modbus read of a poll; its outcome joins the history
    | WriteDevice              // the Modbus write of a command
    | StoreValue(value: real)  // analog_value := the value read
    | Settle(o: Outcome)       // HandleCommunicationSuccess or HandleCommunicationFailure
    | BuildUpdate              // UpdateDNP3Values, and connection_changed cleared
    | ApplyUpdate              // outstation->Apply
    | TakeSnapshot             // a page reads every state
    | AppendLog

  datatype Code = Done | Then(head: Instr, rest: Code)

  datatype Job =
    | Poll(o: Outcome)
    | Select
    | AnalogUnmapped | AnalogRejected | AnalogNoConnection | AnalogTransacted
    | CrobUnmapped | CrobNoConnection | CrobTransacted
    | LogLines(n: nat)
    | Page

  function LogCall(k: Code): Code {
    Then(Acquire(LogLock), Then(AppendLog, Then(Release(LogLock), k)))
  }

  function LogCalls(n: nat, k: Code): Code {
    if n == 0 then k else LogCall(LogCalls(n - 1, k))
  }

  function NoConnection(k: Code): Code {
    Then(Acquire(ModbusLock), Then(Release(ModbusLock), k))
  }

  function Transaction(k: Code): Code {
    Then(Acquire(ModbusLock), Then(WriteDevice, LogCall(Then(Release(ModbusLock), k))))
  }

  function ReadPart(o: Outcome, k: Code): Code {
    Then(Acquire(ModbusLock), Then(ReadDevice(o), Then(Release(ModbusLock), if o.Bad? then LogCall(k) else k)))
  }

  function SettlePart(o: Outcome, k: Code): Code {
    Then(Settle(o), LogCall(Then(Release(DataLock), k)))
  }

  function UpdatePart(o: Outcome, k: Code): Code {
    Then(Acquire(DataLock), if o.Good? then Then(StoreValue(o.value), SettlePart(o, k)) else SettlePart(o, k))
  }

  function PublishPart(k: Code): Code {
    Then(Acquire(Dnp3UpdateLock),
         Then(Acquire(DataLock), Then(BuildUpdate, Then(Release(DataLock),
              Then(ApplyUpdate, Then(Release(Dnp3UpdateLock), k))))))
  }

  function CodeOf(job: Job): Code {
    match job
    case Poll(o) => ReadPart(o, UpdatePart(o, PublishPart(Done)))
    case Select | AnalogUnmapped | CrobUnmapped => LogCalls(1, Done)
    case AnalogRejected => LogCalls(2, Done)
    case AnalogNoConnection => LogCalls(2, NoConnection(Done))
    case AnalogTransacted => LogCalls(2, Transaction(Done))
    case CrobNoConnection => LogCalls(3, NoConnection(LogCalls(1, Done)))
    case CrobTransacted => LogCalls(3, Transaction(LogCalls(1, Done)))
    case LogLines(n) => LogCalls(n, Done)
    case Page =>
      Then(Acquire(DataLock), Then(Acquire(LogLock), Then(TakeSnapshot,
           Then(Release(LogLock), Then(Release(DataLock), Done)))))
  }

  // ------------------------------------------------------------- the machine

  datatype Thread = Thread(code: Code, held: set<Lock>, update: DbValue, seen: seq<State>)

  /** Thread i polls point i for every i below the number of points; the others are
      the command, console and page threads. `history[i]` is what thread i has read. */
  datatype System = System(threads: seq<Thread>, cells: seq<State>, db: Database, history: seq<seq<Outcome>>)

  datatype Event = Start(thread: nat, job: Job) | Step(thread: nat)

  /** What a polling thread's steps touch. */
  datatype View = View(cell: State, entry: DbValue, update: DbValue, history: seq<Outcome>)

  ghost predicate WellFormed(points: seq<ReadPoint>, g: System) {
    && |g.threads| >= |points| && |g.cells| == |points| && |g.history| == |points|
    && forall p :: p in points ==> KeyOf(p) in g.db
  }

  function Init(points: seq<ReadPoint>, starts: nat -> int, workers: nat): (g: System)
    ensures WellFormed(points, g)
  {
    InitialEntriesAreZero(points);
    System(seq(|points| + workers, _ => Thread(Done, {}, AnalogValue(0.0), [])),
           seq(|points|, i requires i >= 0 => Initial(starts(i))),
           InitialEntries(points),
           seq(|points|, _ => []))
  }

  predicate Free(g: System, l: Lock) {
    forall t :: 0 <= t < |g.threads| ==> l !in g.threads[t].held
  }

  predicate Enabled(points: seq<ReadPoint>, g: System, e: Event) {
    && e.thread < |g.threads|
    && match e
       case Start(t, job) => g.threads[t].code.Done? && (job.Poll? <==> t < |points|)
       case Step(t) => g.threads[t].code.Then? && (g.threads[t].code.head.Acquire? ==> Free(g, g.threads[t].code.head.lock))
  }

  function HeldAfter(held: set<Lock>, i: Instr): set<Lock> {
    match i
    case Acquire(l) => held + {l}
    case Release(l) => held - {l}
    case _ => held
  }

  function OnView(binary: bool, i: Instr, v: View): View {
    match i
    case ReadDevice(o) => v.(history := v.history + [o])
    case StoreValue(x) => v.(cell := v.cell.(value := x))
    case Settle(Good(_, at)) => v.(cell := OnSuccess(v.cell, v.cell.value, at))
    case Settle(Bad(at)) => v.(cell := OnFailure(v.cell, at))
    case BuildUpdate => v.(update := Published(binary, v.cell), cell := v.cell.(changed := false))
    case ApplyUpdate => v.(entry := v.update)
    case _ => v
  }

  function ViewOf(points: seq<ReadPoint>, g: System, t: nat): View
    requires WellFormed(points, g) && t < |points|
  {
    View(g.cells[t], g.db[KeyOf(points[t])], g.threads[t].update, g.history[t])
  }

  function Next(points: seq<ReadPoint>, g: System, e: Event): System
    requires WellFormed(points, g) && Enabled(points, g, e)
  {
    match e
    case Start(t, job) => g.(threads := g.threads[t := g.threads[t].(code := CodeOf(job))])
    case Step(t) =>
      var th := g.threads[t];
      var i := th.code.head;
      var moved := th.(code := th.code.rest, held := HeldAfter(th.held, i));
      if t < |points| then
        var v := OnView(IsDiscrete(points[t].kind), i, ViewOf(points, g, t));
        System(g.threads[t := moved.(update := v.update)], g.cells[t := v.cell],
               g.db[KeyOf(points[t]) := v.entry], g.history[t := v.history])
      else
        g.(threads := g.threads[t := if i.TakeSnapshot? then moved.(seen := g.cells) else moved])
  }

  /** The system after a run of events, if each was possible in its turn. */
  function Run(points: seq<ReadPoint>, g: System, events: seq<Event>): Option<System>
    requires WellFormed(points, g)
    decreases |events|
  {
    if events == [] then Some(g)
    else if !Enabled(points, g, events[0]) then None
    else Run(points, Next(points, g, events[0]), events[1..])
  }

  /** The states any run can reach; point i started at time `starts(i)`. */
  ghost predicate Reachable(points: seq<ReadPoint>, starts: nat -> int, g: System) {
    exists workers: nat, events :: Run(points, Init(points, starts, workers), events) == Some(g)
  }

  // ------------------------------------------------------------- lock discipline

  function Rank(l: Lock): nat {
    match l
    case Dnp3UpdateLock => 0
    case ModbusLock => 1
    case DataLock => 2
    case LogLock => 3
  }

  /** The mutex that protects what an instruction touches. */
  function GuardOf(i: Instr): Option<Lock> {
    match i
    case ReadDevice(_) | WriteDevice => Some(ModbusLock)
    case StoreValue(_) | Settle(_) | BuildUpdate | TakeSnapshot => Some(DataLock)
    case ApplyUpdate => Some(Dnp3UpdateLock)
    case AppendLog => Some(LogLock)
    case Acquire(_) | Release(_) => None
  }

  /** Locks are taken in rank order, released when held, and cover what they guard. */
  predicate Legal(held: set<Lock>, i: Instr) {
    match i
    case Acquire(l) => forall m :: m in held ==> Rank(m) < Rank(l)
    case Release(l) => l in held
    case _ => GuardOf(i).value in held
  }

  predicate Ordered(held: set<Lock>, code: Code)
    decreases code
  {
    match code
    case Done => held == {}
    case Then(i, k) => Legal(held, i) && Ordered(HeldAfter(held, i), k)
  }

  lemma LogCallOrdered(held: set<Lock>, k: Code)
    requires LogLock !in held && Ordered(held, k)
    ensures Ordered(held, LogCall(k))
  {
  }

  lemma {:induction false} LogCallsOrdered(held: set<Lock>, n: nat, k: Code)
    requires LogLock !in held && Ordered(held, k)
    ensures Ordered(held, LogCalls(n, k))
  {
    if n > 0 {
      LogCallsOrdered(held, n - 1, k);
      LogCallOrdered(held, LogCalls(n - 1, k));
    }
  }

  lemma ModbusPartsOrdered(k: Code)
    requires Ordered({}, k)
    ensures Ordered({}, NoConnection(k)) && Ordered({}, Transaction(k))
  {
    assert {ModbusLock} - {ModbusLock} == {} && {} + {ModbusLock} == {ModbusLock};
    assert Ordered({ModbusLock}, Then(Release(ModbusLock), k));
    LogCallOrdered({ModbusLock}, Then(Release(ModbusLock), k));
    assert Ordered({ModbusLock}, Then(WriteDevice, LogCall(Then(Release(ModbusLock), k))));
  }

  lemma ReadPartOrdered(o: Outcome, k: Code)
    requires Ordered({}, k)
    ensures Ordered({}, ReadPart(o, k))
  {
    assert {ModbusLock} - {ModbusLock} == {} && {} + {ModbusLock} == {ModbusLock};
    LogCallOrdered({}, k);
    var logged := if o.Bad? then LogCall(k) else k;
    assert Ordered({ModbusLock}, Then(ReadDevice(o), Then(Release(ModbusLock), logged)));
  }

  lemma UpdatePartOrdered(o: Outcome, k: Code)
    requires Ordered({}, k)
    ensures Ordered({}, UpdatePart(o, k))
  {
    assert {DataLock} - {DataLock} == {} && {} + {DataLock} == {DataLock};
    LogCallOrdered({DataLock}, Then(Release(DataLock), k));
    assert Ordered({DataLock}, SettlePart(o, k));
  }

  lemma PublishPartOrdered(k: Code)
    requires Ordered({}, k)
    ensures Ordered({}, PublishPart(k))
  {
    var a, b := {Dnp3UpdateLock}, {Dnp3UpdateLock, DataLock};
    assert {} + {Dnp3UpdateLock} == a && a + {DataLock} == b && b - {DataLock} == a && a - {Dnp3UpdateLock} == {};
    assert Ordered(a, Then(ApplyUpdate, Then(Release(Dnp3UpdateLock), k)));
    assert Ordered(b, Then(BuildUpdate, Then(Release(DataLock), Then(ApplyUpdate, Then(Release(Dnp3UpdateLock), k)))));
  }

  lemma PageOrdered()
    ensures Ordered({}, CodeOf(Page))
  {
  }

  /** Every path through every thread follows the lock order and ends holding nothing. */
  lemma JobOrdered(job: Job)
    ensures Ordered({}, CodeOf(job))
  {
    LogCallsOrdered({}, 1, Done);
    match job
    case Poll(o) =>
      PublishPartOrdered(Done);
      UpdatePartOrdered(o, PublishPart(Done));
      ReadPartOrdered(o, UpdatePart(o, PublishPart(Done)));
    case Select | AnalogUnmapped | CrobUnmapped =>
    case AnalogRejected => LogCallsOrdered({}, 2, Done);
    case AnalogNoConnection =>
      ModbusPartsOrdered(Done);
      LogCallsOrdered({}, 2, NoConnection(Done));
    case AnalogTransacted =>
      ModbusPartsOrdered(Done);
      LogCallsOrdered({}, 2, Transaction(Done));
    case CrobNoConnection =>
      ModbusPartsOrdered(LogCalls(1, Done));
      LogCallsOrdered({}, 3, NoConnection(LogCalls(1, Done)));
    case CrobTransacted =>
      ModbusPartsOrdered(LogCalls(1, Done));
      LogCallsOrdered({}, 3, Transaction(LogCalls(1, Done)));
    case LogLines(n) => LogCallsOrdered({}, n, Done);
    case Page => PageOrdered();
  }

  /** The reads a path makes, in order, and how often it writes a device, publishes, shows
      a page and logs. */
  datatype Effects = Effects(outcomes: seq<Outcome>, writes: nat, applies: nat, snapshots: nat, logs: nat)

  function EffectsOf(code: Code): Effects {
    match code
    case Done => Effects([], 0, 0, 0, 0)
    case Then(i, k) =>
      var e := EffectsOf(k);
      match i
      case ReadDevice(o) => e.(outcomes := [o] + e.outcomes)
      case WriteDevice => e.(writes := e.writes + 1)
      case ApplyUpdate => e.(applies := e.applies + 1)
      case TakeSnapshot => e.(snapshots := e.snapshots + 1)
      case AppendLog => e.(logs := e.logs + 1)
      case _ => e
  }

  lemma LogCallEffects(k: Code)
    ensures EffectsOf(LogCall(k)) == EffectsOf(k).(logs := EffectsOf(k).logs + 1)
  {
    assert EffectsOf(Then(Release(LogLock), k)) == EffectsOf(k);
  }

  lemma {:induction false} LogCallsEffects(n: nat, k: Code)
    ensures EffectsOf(LogCalls(n, k)) == EffectsOf(k).(logs := EffectsOf(k).logs + n)
  {
    if n > 0 {
      LogCallsEffects(n - 1, k);
      LogCallEffects(LogCalls(n - 1, k));
      hide EffectsOf;
    }
  }

  lemma ModbusEffects(k: Code)
    ensures EffectsOf(NoConnection(k)) == EffectsOf(k)
    ensures EffectsOf(Transaction(k)) == EffectsOf(k).(writes := EffectsOf(k).writes + 1, logs := EffectsOf(k).logs + 1)
  {
    LogCallEffects(Then(Release(ModbusLock), k));
    assert EffectsOf(Then(Release(ModbusLock), k)) == EffectsOf(k);
    hide LogCall;
    assert EffectsOf(Then(WriteDevice, LogCall(Then(Release(ModbusLock), k))))
        == EffectsOf(k).(writes := EffectsOf(k).writes + 1, logs := EffectsOf(k).logs + 1);
  }

  lemma PollEffects(o: Outcome)
    ensures EffectsOf(CodeOf(Poll(o))) == Effects([o], 0, 1, 0, if o.Bad? then 2 else 1)
  {
    var publish := PublishPart(Done);
    PublishEffects();
    var released := Then(Release(DataLock), publish);
    LogCallEffects(released);
    assert EffectsOf(released) == EffectsOf(publish);
    hide LogCall, PublishPart;
    var settle := SettlePart(o, publish);
    assert EffectsOf(settle) == Effects([], 0, 1, 0, 1);
    assert EffectsOf(Then(StoreValue(if o.Good? then o.value else 0.0), settle)) == EffectsOf(settle);
    var update := UpdatePart(o, publish);
    assert EffectsOf(update) == EffectsOf(settle);
    hide UpdatePart, SettlePart;
    LogCallEffects(update);
    var logged := if o.Bad? then LogCall(update) else update;
    assert EffectsOf(Then(Release(ModbusLock), logged)) == EffectsOf(logged);
    assert EffectsOf(Then(ReadDevice(o), Then(Release(ModbusLock), logged))).outcomes == [o] + EffectsOf(logged).outcomes;
  }

  lemma PublishEffects()
    ensures EffectsOf(PublishPart(Done)) == Effects([], 0, 1, 0, 0)
  {
    var tail := Then(ApplyUpdate, Then(Release(Dnp3UpdateLock), Done));
    assert EffectsOf(Then(Release(Dnp3UpdateLock), Done)) == EffectsOf(Done);
    assert EffectsOf(tail) == Effects([], 0, 1, 0, 0);
    assert EffectsOf(Then(BuildUpdate, Then(Release(DataLock), tail))) == EffectsOf(tail);
  }

  /** What each path does: a poll reads once and publishes once, only the two transactions
      write a device and each once, only a page reads the states, and n lines are logged
      by n calls. */
  lemma JobEffects(job: Job)
    ensures var e := EffectsOf(CodeOf(job));
            && e.outcomes == (if job.Poll? then [job.o] else [])
            && e.writes == (if job.AnalogTransacted? || job.CrobTransacted? then 1 else 0)
            && e.applies == (if job.Poll? then 1 else 0)
            && e.snapshots == (if job.Page? then 1 else 0)
            && (job.LogLines? ==> e.logs == job.n)
  {
    if job.LogLines? {
      LogCallsEffects(job.n, Done);
    } else if job.Poll? {
      PollEffects(job.o);
    } else if job.Page? {
      PageEffects();
    } else {
      CommandEffects(job);
    }
    hide LogCalls, EffectsOf, CodeOf;
  }

  lemma CommandEffects(job: Job)
    requires !job.Poll? && !job.Page? && !job.LogLines?
    ensures var e := EffectsOf(CodeOf(job));
            && e.outcomes == [] && e.applies == 0 && e.snapshots == 0
            && e.writes == if job.AnalogTransacted? || job.CrobTransacted? then 1 else 0
  {
    assert EffectsOf(Done) == Effects([], 0, 0, 0, 0);
    hide EffectsOf, LogCalls, NoConnection, Transaction;
    LogCallsEffects(1, Done);
    if job.Select? || job.AnalogUnmapped? || job.CrobUnmapped? {
    } else if job.AnalogRejected? {
      LogCallsEffects(2, Done);
    } else {
      ModbusEffects(Done);
      ModbusEffects(LogCalls(1, Done));
      if job.AnalogNoConnection? {
        LogCallsEffects(2, NoConnection(Done));
      } else if job.AnalogTransacted? {
        LogCallsEffects(2, Transaction(Done));
      } else if job.CrobNoConnection? {
        LogCallsEffects(3, NoConnection(LogCalls(1, Done)));
      } else {
        LogCallsEffects(3, Transaction(LogCalls(1, Done)));
      }
    }
  }

  lemma PageEffects()
    ensures EffectsOf(CodeOf(Page)) == Effects([], 0, 0, 1, 0)
  {
    var tail := Then(Release(LogLock), Then(Release(DataLock), Done));
    assert EffectsOf(Then(Release(DataLock), Done)) == EffectsOf(Done);
    assert EffectsOf(tail) == EffectsOf(Done);
    assert EffectsOf(Then(TakeSnapshot, tail)) == Effects([], 0, 0, 1, 0);
    assert EffectsOf(Then(Acquire(LogLock), Then(TakeSnapshot, tail))) == Effects([], 0, 0, 1, 0);
  }

  /** Every thread follows the order from where it is, and no mutex has two holders. */
  ghost predicate Disciplined(g: System) {
    && (forall t :: 0 <= t < |g.threads| ==> Ordered(g.threads[t].held, g.threads[t].code))
    && (forall t, u :: 0 <= t < u < |g.threads| ==> g.threads[t].held !! g.threads[u].held)
  }

  lemma StepDisciplined(points: seq<ReadPoint>, g: System, e: Event)
    requires WellFormed(points, g) && Disciplined(g) && Enabled(points, g, e)
    ensures WellFormed(points, Next(points, g, e)) && Disciplined(Next(points, g, e))
  {
    hide CodeOf, OnView, Legal;
    if e.Start? {
      JobOrdered(e.job);
    }
  }

  lemma InitDisciplined(points: seq<ReadPoint>, starts: nat -> int, workers: nat)
    ensures Disciplined(Init(points, starts, workers))
  {
  }

  lemma {:induction false} RunDisciplined(points: seq<ReadPoint>, g: System, events: seq<Event>)
    requires WellFormed(points, g) && Disciplined(g) && Run(points, g, events).Some?
    ensures WellFormed(points, Run(points, g, events).value) && Disciplined(Run(points, g, events).value)
    decreases |events|
  {
    if events != [] {
      StepDisciplined(points, g, events[0]);
      RunDisciplined(points, Next(points, g, events[0]), events[1..]);
    }
  }

  lemma ReachableDisciplined(points: seq<ReadPoint>, starts: nat -> int, g: System)
    requires Reachable(points, starts, g)
    ensures WellFormed(points, g) && Disciplined(g)
  {
    var workers: nat, events :| Run(points, Init(points, starts, workers), events) == Some(g);
    InitDisciplined(points, starts, workers);
    RunDisciplined(points, Init(points, starts, workers), events);
  }

  lemma {:induction false} RunAppend(points: seq<ReadPoint>, g: System, a: seq<Event>, b: seq<Event>)
    requires WellFormed(points, g) && Run(points, g, a).Some?
    ensures WellFormed(points, Run(points, g, a).value)
    ensures Run(points, g, a + b) == Run(points, Run(points, g, a).value, b)
    decreases |a|
  {
    hide CodeOf, OnView;
    if a == [] {
      assert a + b == b;
    } else {
      assert (a + b)[0] == a[0] && (a + b)[1..] == a[1..] + b;
      RunAppend(points, Next(points, g, a[0]), a[1..], b);
    }
  }

  lemma RunReaches(points: seq<ReadPoint>, starts: nat -> int, g: System, events: seq<Event>)
    requires Reachable(points, starts, g) && WellFormed(points, g) && Run(points, g, events).Some?
    ensures Reachable(points, starts, Run(points, g, events).value)
  {
    var workers: nat, before :| Run(points, Init(points, starts, workers), before) == Some(g);
    RunAppend(points, Init(points, starts, workers), before, events);
  }

  // ------------------------------------------------------------- no deadlock

  predicate Busy(g: System, t: int) {
    0 <= t < |g.threads| && g.threads[t].code.Then?
  }

  /** From a thread that waits, the holder chain climbs in rank to one that can step. */
  lemma {:induction false} SomeoneCanStep(points: seq<ReadPoint>, g: System, t: nat)
    requires Disciplined(g) && Busy(g, t)
    ensures exists u: nat :: Enabled(points, g, Step(u))
    decreases 4 - (if g.threads[t].code.head.Acquire? then Rank(g.threads[t].code.head.lock) else 4)
  {
    var i := g.threads[t].code.head;
    if i.Acquire? && !Free(g, i.lock) {
      var u :| 0 <= u < |g.threads| && i.lock in g.threads[u].held;
      assert Ordered(g.threads[u].held, g.threads[u].code);
      SomeoneCanStep(points, g, u);
    } else {
      assert Enabled(points, g, Step(t));
    }
  }

  /** No reachable state is deadlocked: while some thread is in the middle of its
      work, some thread can take its next step. */
  lemma NoDeadlock(points: seq<ReadPoint>, starts: nat -> int, g: System)
    requires Reachable(points, starts, g)
    ensures (exists t :: Busy(g, t)) ==> exists u: nat :: Enabled(points, g, Step(u))
  {
    ReachableDisciplined(points, starts, g);
    if t :| Busy(g, t) {
      SomeoneCanStep(points, g, t);
    }
  }

  /** No two threads are ever both about to touch what one mutex guards. */
  lemma NoRace(points: seq<ReadPoint>, starts: nat -> int, g: System, t: nat, u: nat)
    requires Reachable(points, starts, g)
    requires Busy(g, t) && Busy(g, u) && GuardOf(g.threads[t].code.head).Some?
    requires GuardOf(g.threads[t].code.head) == GuardOf(g.threads[u].code.head)
    ensures t == u
  {
    ReachableDisciplined(points, starts, g);
    var l := GuardOf(g.threads[t].code.head).value;
    assert Ordered(g.threads[t].held, g.threads[t].code) && Ordered(g.threads[u].held, g.threads[u].code);
    assert l in g.threads[t].held && l in g.threads[u].held;
  }

  // ------------------------------------------------------------- work always finishes

  function Size(code: Code): nat {
    match code
    case Done => 0
    case Then(_, k) => 1 + Size(k)
  }

  function Remaining(threads: seq<Thread>): nat {
    if threads == [] then 0 else Size(threads[0].code) + Remaining(threads[1..])
  }

  lemma {:induction false} RemainingChanges(threads: seq<Thread>, t: nat, moved: Thread)
    requires t < |threads|
    ensures Remaining(threads[t := moved]) + Size(threads[t].code) == Remaining(threads) + Size(moved.code)
  {
    if t > 0 {
      assert threads[t := moved][1..] == threads[1..][t - 1 := moved];
      RemainingChanges(threads[1..], t - 1, moved);
    } else {
      assert threads[t := moved][1..] == threads[1..];
    }
  }

  /** Every step takes one instruction off the work under way. */
  lemma StepRemaining(points: seq<ReadPoint>, g: System, t: nat)
    requires WellFormed(points, g) && Enabled(points, g, Step(t))
    ensures Remaining(Next(points, g, Step(t)).threads) + 1 == Remaining(g.threads)
  {
    var next := Next(points, g, Step(t));
    assert next.threads == g.threads[t := next.threads[t]];
    assert Size(next.threads[t].code) + 1 == Size(g.threads[t].code);
    hide OnView, Next, Remaining, Size;
    RemainingChanges(g.threads, t, next.threads[t]);
  }

  lemma {:induction false} NothingRemains(threads: seq<Thread>)
    ensures Remaining(threads) == 0 <==> forall t :: 0 <= t < |threads| ==> threads[t].code.Done?
  {
    if threads != [] {
      NothingRemains(threads[1..]);
      assert forall t :: 0 < t < |threads| ==> threads[t] == threads[1..][t - 1];
      assert Size(threads[0].code) == 0 <==> threads[0].code.Done?;
    }
  }

  ghost predicate Quiet(g: System) {
    forall t :: 0 <= t < |g.threads| ==> g.threads[t].code.Done? && g.threads[t].held == {}
  }

  predicate StepsOnly(events: seq<Event>) {
    forall e :: e in events ==> e.Step?
  }

  /** From every reachable state the work under way can be finished, starting
      nothing new, until every thread is idle and every mutex is free. */
  lemma WorkDrains(points: seq<ReadPoint>, starts: nat -> int, g: System)
    requires Reachable(points, starts, g)
    ensures WellFormed(points, g)
    ensures exists events :: StepsOnly(events) && Run(points, g, events).Some? && Quiet(Run(points, g, events).value)
  {
    ReachableDisciplined(points, starts, g);
    var events := Drain(points, g);
  }

  lemma {:induction false} StepsRemaining(points: seq<ReadPoint>, g: System, events: seq<Event>)
    requires WellFormed(points, g) && StepsOnly(events) && Run(points, g, events).Some?
    ensures |events| + Remaining(Run(points, g, events).value.threads) == Remaining(g.threads)
    decreases |events|
  {
    if events != [] {
      assert events[0] in events && StepsOnly(events[1..]);
      StepRemaining(points, g, events[0].thread);
      hide OnView, Remaining, Enabled, StepsOnly;
      StepsRemaining(points, Next(points, g, events[0]), events[1..]);
    }
  }

  /** Nothing can step exactly when all is quiet, which is when no work is left. */
  lemma StuckIsQuiet(points: seq<ReadPoint>, g: System)
    requires Disciplined(g)
    ensures Quiet(g) <==> forall u: nat :: !Enabled(points, g, Step(u))
    ensures Quiet(g) <==> Remaining(g.threads) == 0
  {
    NothingRemains(g.threads);
    if t: nat :| Busy(g, t) {
      SomeoneCanStep(points, g, t);
    } else {
      IdleIsQuiet(g);
    }
  }

  lemma IdleIsQuiet(g: System)
    requires Disciplined(g) && forall t: nat :: !Busy(g, t)
    ensures Quiet(g)
  {
    forall t | 0 <= t < |g.threads|
      ensures g.threads[t].code.Done? && g.threads[t].held == {}
    {
      assert Ordered(g.threads[t].held, g.threads[t].code) && !Busy(g, t);
    }
  }

  /** Every schedule drains: from a reachable state, steps alone can go on for as many
      instructions as are under way and no longer, and they stop with every thread idle
      and every mutex free. */
  lemma EveryScheduleDrains(points: seq<ReadPoint>, starts: nat -> int, g: System, events: seq<Event>)
    requires Reachable(points, starts, g) && StepsOnly(events)
    ensures WellFormed(points, g)
    ensures Run(points, g, events).Some? ==>
              var last := Run(points, g, events).value;
              && |events| <= Remaining(g.threads)
              && (Quiet(last) <==> |events| == Remaining(g.threads))
              && (Quiet(last) <==> forall u: nat :: !Enabled(points, last, Step(u)))
  {
    ReachableDisciplined(points, starts, g);
    if Run(points, g, events).Some? {
      RunDisciplined(points, g, events);
      StepsRemaining(points, g, events);
      hide Run, Remaining, Quiet, Enabled, Disciplined;
      StuckIsQuiet(points, Run(points, g, events).value);
    }
  }

  lemma {:induction false} Drain(points: seq<ReadPoint>, g: System) returns (events: seq<Event>)
    requires WellFormed(points, g) && Disciplined(g)
    ensures StepsOnly(events) && Run(points, g, events).Some? && Quiet(Run(points, g, events).value)
    decreases Remaining(g.threads)
  {
    if t: nat :| Busy(g, t) {
      SomeoneCanStep(points, g, t);
      var u: nat :| Enabled(points, g, Step(u));
      var next := Next(points, g, Step(u));
      StepDisciplined(points, g, Step(u));
      StepRemaining(points, g, u);
      var rest := Drain(points, next);
      events := [Step(u)] + rest;
      assert events[1..] == rest;
    } else {
      events := [];
      IdleIsQuiet(g);
    }
  }
}
