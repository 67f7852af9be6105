/** What the interleaved threads publish: every database entry follows its own
    point's reads whatever the other threads do, exactly when no two points share a
    DNP3 key. */
module Publishing {
  import opened PointTypes
  import opened PointState
  import opened Gateway
  import opened Threads

  // ------------------------------------------------------------- one point's view

  function Clean(s: State): State {
    s.(changed := false)
  }

  function Front(h: seq<Outcome>): seq<Outcome> {
    if h == [] then h else h[..|h| - 1]
  }

  function Entry(start: int, binary: bool, h: seq<Outcome>): DbValue {
    Published(binary, After(start, h))
  }

  /** The entry shows the whole read history, or all of it but the last read. */
  predicate Follows(start: int, binary: bool, v: View) {
    v.entry == Entry(start, binary, v.history) || v.entry == Entry(start, binary, Front(v.history))
  }

  /** The cell holds the state of the whole history, or of all but the last read:
      never a mixture of the two. */
  predicate Whole(start: int, v: View) {
    Clean(v.cell) == Clean(After(start, v.history)) || Clean(v.cell) == Clean(After(start, Front(v.history)))
  }

  predicate Settled(start: int, binary: bool, v: View) {
    Clean(v.cell) == Clean(After(start, v.history)) && v.entry == Entry(start, binary, v.history)
  }

  /** From here to the end of its job the thread keeps its entry following its
      history, keeps its cell whole outside the data mutex, and ends settled. */
  predicate Keeps(start: int, binary: bool, held: set<Lock>, code: Code, v: View)
    decreases code
  {
    && Follows(start, binary, v)
    && (DataLock in held || Whole(start, v))
    && match code
       case Done => Settled(start, binary, v)
       case Then(i, k) => Keeps(start, binary, HeldAfter(held, i), k, OnView(binary, i, v))
  }

  lemma LogCallKeeps(start: int, binary: bool, held: set<Lock>, k: Code, v: View)
    requires LogLock !in held && Keeps(start, binary, held, k, v)
    ensures Keeps(start, binary, held, LogCall(k), v)
  {
  }

  /** The publish part settles the entry on the state it finds. */
  lemma PublishKeeps(start: int, binary: bool, v: View)
    requires Follows(start, binary, v) && Clean(v.cell) == Clean(After(start, v.history))
    ensures Keeps(start, binary, {}, PublishPart(Done), v)
  {
    var a, b := {Dnp3UpdateLock}, {Dnp3UpdateLock, DataLock};
    assert {} + {Dnp3UpdateLock} == a && a + {DataLock} == b && b - {DataLock} == a && a - {Dnp3UpdateLock} == {};
    hide After;
    var built := OnView(binary, BuildUpdate, v);
    var applied := OnView(binary, ApplyUpdate, built);
    var tail := Then(Release(Dnp3UpdateLock), Done);
    assert Keeps(start, binary, a, tail, applied);
    assert Keeps(start, binary, a, Then(ApplyUpdate, tail), built);
    assert Keeps(start, binary, b, Then(Release(DataLock), Then(ApplyUpdate, tail)), built);
    assert Keeps(start, binary, b, Then(BuildUpdate, Then(Release(DataLock), Then(ApplyUpdate, tail))), v);
  }

  /** A read outcome just recorded, not yet in the cell. */
  predicate Pending(start: int, binary: bool, o: Outcome, v: View) {
    && v.history != [] && v.history[|v.history| - 1] == o
    && Clean(v.cell) == Clean(After(start, Front(v.history)))
    && v.entry == Entry(start, binary, Front(v.history))
  }

  /** The update part brings a pending read into the cell; k is what follows. */
  lemma UpdatePartKeeps(start: int, binary: bool, o: Outcome, k: Code, v: View)
    requires Pending(start, binary, o, v)
    requires Keeps(start, binary, {}, k, v.(cell := OnOutcome(v.cell, o)))
    ensures Keeps(start, binary, {}, UpdatePart(o, k), v)
  {
    assert {DataLock} - {DataLock} == {} && {} + {DataLock} == {DataLock};
    var stored := if o.Good? then OnView(binary, StoreValue(o.value), v) else v;
    var settled := OnView(binary, Settle(o), stored);
    var tail := Then(Release(DataLock), k);
    assert settled == v.(cell := OnOutcome(v.cell, o));
    assert OnView(binary, Release(DataLock), settled) == settled && OnView(binary, Acquire(DataLock), v) == v;
    assert Follows(start, binary, settled) && Follows(start, binary, stored) && Follows(start, binary, v) && Whole(start, v);
    hide After, OnView, Follows, Whole, Settled, Pending;
    assert Keeps(start, binary, {DataLock}, tail, settled);
    LogCallKeeps(start, binary, {DataLock}, tail, settled);
    assert Keeps(start, binary, {DataLock}, SettlePart(o, k), stored);
  }

  /** The read part leaves a pending read; k is what follows. */
  lemma ReadPartKeeps(start: int, binary: bool, o: Outcome, k: Code, v: View)
    requires Settled(start, binary, v)
    requires Keeps(start, binary, {}, k, v.(history := v.history + [o]))
    ensures Keeps(start, binary, {}, ReadPart(o, k), v)
  {
    assert {ModbusLock} - {ModbusLock} == {} && {} + {ModbusLock} == {ModbusLock};
    var read := OnView(binary, ReadDevice(o), v);
    assert Front(read.history) == v.history;
    assert OnView(binary, Acquire(ModbusLock), v) == v && OnView(binary, Release(ModbusLock), read) == read;
    assert Follows(start, binary, v) && Whole(start, v) && Follows(start, binary, read) && Whole(start, read);
    hide After, OnView, Follows, Whole, Settled, Front;
    LogCallKeeps(start, binary, {}, k, read);
    var logged := if o.Bad? then LogCall(k) else k;
    assert Keeps(start, binary, {}, logged, read);
    assert Keeps(start, binary, {ModbusLock}, Then(Release(ModbusLock), logged), read);
    assert Keeps(start, binary, {ModbusLock}, Then(ReadDevice(o), Then(Release(ModbusLock), logged)), v);
  }

  /** A whole poll, from a settled view. */
  lemma PollKeeps(start: int, binary: bool, o: Outcome, v: View)
    requires Settled(start, binary, v)
    ensures Keeps(start, binary, {}, CodeOf(Poll(o)), v)
  {
    var read := v.(history := v.history + [o]);
    assert Front(read.history) == v.history;
    var settled := read.(cell := OnOutcome(read.cell, o));
    assert After(start, read.history) == OnOutcome(After(start, v.history), o);
    assert Clean(settled.cell) == Clean(After(start, settled.history));
    hide After, Keeps, PublishPart, UpdatePart, ReadPart;
    PublishKeeps(start, binary, settled);
    UpdatePartKeeps(start, binary, o, PublishPart(Done), read);
    ReadPartKeeps(start, binary, o, UpdatePart(o, PublishPart(Done)), v);
  }

  // ------------------------------------------------------------- all points, any interleaving

  ghost predicate AllKeep(points: seq<ReadPoint>, starts: nat -> int, g: System) {
    WellFormed(points, g) &&
    forall i :: 0 <= i < |points| ==>
                  Keeps(starts(i), IsDiscrete(points[i].kind), g.threads[i].held, g.threads[i].code, ViewOf(points, g, i))
  }

  lemma OthersUntouched(points: seq<ReadPoint>, g: System, e: Event, i: nat)
    requires DistinctKeys(points) && WellFormed(points, g) && Enabled(points, g, e)
    requires i < |points| && i != e.thread
    ensures WellFormed(points, Next(points, g, e))
    ensures ViewOf(points, Next(points, g, e), i) == ViewOf(points, g, i)
    ensures Next(points, g, e).threads[i] == g.threads[i]
  {
  }

  lemma StepKeeps(points: seq<ReadPoint>, starts: nat -> int, g: System, e: Event)
    requires DistinctKeys(points) && Disciplined(g) && AllKeep(points, starts, g) && Enabled(points, g, e)
    ensures AllKeep(points, starts, Next(points, g, e))
  {
    var next := Next(points, g, e);
    StepDisciplined(points, g, e);
    forall i | 0 <= i < |points|
      ensures Keeps(starts(i), IsDiscrete(points[i].kind), next.threads[i].held, next.threads[i].code, ViewOf(points, next, i))
    {
      if i != e.thread {
        OthersUntouched(points, g, e, i);
      } else if e.Start? {
        OwnStart(points, starts, g, e);
      } else {
        OwnStep(points, starts, g, e);
      }
    }
  }

  lemma OwnStart(points: seq<ReadPoint>, starts: nat -> int, g: System, e: Event)
    requires Disciplined(g) && AllKeep(points, starts, g) && Enabled(points, g, e) && e.Start? && e.thread < |points|
    ensures var next, i := Next(points, g, e), e.thread;
            && WellFormed(points, next)
            && Keeps(starts(i), IsDiscrete(points[i].kind), next.threads[i].held, next.threads[i].code, ViewOf(points, next, i))
  {
    hide CodeOf, OnView;
    var i := e.thread;
    assert Ordered(g.threads[i].held, g.threads[i].code);
    PollKeeps(starts(i), IsDiscrete(points[i].kind), e.job.o, ViewOf(points, g, i));
  }

  lemma OwnStep(points: seq<ReadPoint>, starts: nat -> int, g: System, e: Event)
    requires AllKeep(points, starts, g) && Enabled(points, g, e) && e.Step? && e.thread < |points|
    ensures var next, i := Next(points, g, e), e.thread;
            && WellFormed(points, next)
            && Keeps(starts(i), IsDiscrete(points[i].kind), next.threads[i].held, next.threads[i].code, ViewOf(points, next, i))
  {
  }

  lemma {:induction false} RunKeeps(points: seq<ReadPoint>, starts: nat -> int, g: System, events: seq<Event>)
    requires DistinctKeys(points) && Disciplined(g) && AllKeep(points, starts, g) && Run(points, g, events).Some?
    ensures AllKeep(points, starts, Run(points, g, events).value)
    decreases |events|
  {
    hide Disciplined, Next, Keeps;
    if events != [] {
      StepDisciplined(points, g, events[0]);
      StepKeeps(points, starts, g, events[0]);
      RunKeeps(points, starts, Next(points, g, events[0]), events[1..]);
    }
  }

  lemma InitKeeps(points: seq<ReadPoint>, starts: nat -> int, workers: nat)
    ensures AllKeep(points, starts, Init(points, starts, workers))
  {
    InitialEntriesAreZero(points);
    var g := Init(points, starts, workers);
    forall i | 0 <= i < |points|
      ensures Keeps(starts(i), IsDiscrete(points[i].kind), g.threads[i].held, g.threads[i].code, ViewOf(points, g, i))
    {
      assert points[i] in points;
    }
  }

  lemma ReachableKeeps(points: seq<ReadPoint>, starts: nat -> int, g: System)
    requires DistinctKeys(points) && Reachable(points, starts, g)
    ensures AllKeep(points, starts, g) && Disciplined(g)
  {
    var workers: nat, events :| Run(points, Init(points, starts, workers), events) == Some(g);
    InitDisciplined(points, starts, workers);
    InitKeeps(points, starts, workers);
    RunKeeps(points, starts, Init(points, starts, workers), events);
    RunDisciplined(points, Init(points, starts, workers), events);
  }

  // ------------------------------------------------------------- the results

  ghost predicate EntryFollows(points: seq<ReadPoint>, starts: nat -> int, g: System, i: nat) {
    i < |points| ==> WellFormed(points, g) && Follows(starts(i), IsDiscrete(points[i].kind), ViewOf(points, g, i))
  }

  /** In every reachable state every entry follows its own point's read history. */
  ghost predicate NonInterference(points: seq<ReadPoint>) {
    forall starts: nat -> int, g, i: nat :: Reachable(points, starts, g) ==> EntryFollows(points, starts, g, i)
  }

  lemma DistinctDoNotInterfere(points: seq<ReadPoint>)
    requires DistinctKeys(points)
    ensures NonInterference(points)
  {
    forall starts: nat -> int, g, i: nat | Reachable(points, starts, g)
      ensures EntryFollows(points, starts, g, i)
    {
      ReachableKeeps(points, starts, g);
    }
  }

  /** What an entry shows of a history: its last good reading, or 0 when there was
      none or the last five or more reads failed. */
  ghost predicate Shows(entry: DbValue, binary: bool, h: seq<Outcome>) {
    exists v :: IsExpectedValue(h, v) && entry == (if binary then BinaryValue(v != 0.0) else AnalogValue(v))
  }

  lemma PublishedShows(start: int, binary: bool, h: seq<Outcome>)
    ensures Shows(Entry(start, binary, h), binary, h)
  {
    ValueMeaning(start, h);
    hide After, Published, IsExpectedValue;
  }

  /** In terms of the reads alone: in every reachable state every entry shows its own
      point's reads, or all of them but the last. */
  lemma EntriesShowReads(points: seq<ReadPoint>, starts: nat -> int, g: System, i: nat)
    requires DistinctKeys(points) && Reachable(points, starts, g) && i < |points|
    ensures WellFormed(points, g)
    ensures var binary := points[i].kind.CoilStatusBool? || points[i].kind.InputStatusBool?;
            var entry := g.db[Key(binary, points[i].dnp3Index)];
            Shows(entry, binary, g.history[i]) || Shows(entry, binary, Front(g.history[i]))
  {
    hide Reachable, Shows, Entry, Disciplined, Keeps, DistinctKeys;
    DistinctDoNotInterfere(points);
    assert EntryFollows(points, starts, g, i);
    PublishedShows(starts(i), IsDiscrete(points[i].kind), g.history[i]);
    PublishedShows(starts(i), IsDiscrete(points[i].kind), Front(g.history[i]));
  }

  /** Between polls nothing lags: an idle point's entry shows its whole history. */
  lemma IdleShowsWholeHistory(points: seq<ReadPoint>, starts: nat -> int, g: System, i: nat)
    requires DistinctKeys(points) && Reachable(points, starts, g) && i < |points|
    ensures WellFormed(points, g)
    ensures !Busy(g, i) ==> g.db[KeyOf(points[i])] == Entry(starts(i), IsDiscrete(points[i].kind), g.history[i])
  {
    ReachableKeeps(points, starts, g);
    hide Reachable, Entry, Disciplined, DistinctKeys;
  }

  /** A page never sees a half-updated point: at the moment it reads the states,
      each is the state of its point's history, whole or without the last read. */
  lemma SnapshotsAreWhole(points: seq<ReadPoint>, starts: nat -> int, g: System, t: nat, i: nat)
    requires DistinctKeys(points) && Reachable(points, starts, g) && i < |points| <= t
    requires Busy(g, t) && g.threads[t].code.head.TakeSnapshot?
    ensures WellFormed(points, g) && Whole(starts(i), ViewOf(points, g, i))
  {
    ReachableKeeps(points, starts, g);
    hide Reachable, Whole, Follows, Settled, DistinctKeys;
    assert Ordered(g.threads[t].held, g.threads[t].code);
    assert DataLock in g.threads[t].held && DataLock !in g.threads[i].held;
    assert Keeps(starts(i), IsDiscrete(points[i].kind), g.threads[i].held, g.threads[i].code, ViewOf(points, g, i));
  }
}
