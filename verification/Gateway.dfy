/** The gateway object: live point states, the outstation's values, the device
    network, and the poll and command paths between them (Dnp3.cpp, Modbus.cpp). */
module Gateway {
  import opened PointTypes
  import opened RegisterCodec
  import opened Modbus
  import opened Commands
  import opened PointState

  datatype OperationType = LatchOn | LatchOff | PulseOn | PulseOff | OtherOperation

  /** Only the two OFF operations write 0; an unknown operation writes 1. */
  predicate CoilValue(op: OperationType) {
    !op.LatchOff? && !op.PulseOff?
  }

  type Database = map<Key, DbValue>

  // ------------------------------------------------------ specifications

  function Select(commands: seq<CommandPoint>, index: uint16, target: WriteTarget): CommandStatus {
    if Find(commands, index, target).Some? then SUCCESS else NOT_SUPPORTED
  }

  function OperateAnalog(f: Float32, net: Network, commands: seq<CommandPoint>, index: uint16, x: real, link: Link)
    : (CommandStatus, Network)
  {
    match Find(commands, index, HoldingRegister)
    case None => (NOT_SUPPORTED, net)
    case Some(c) => WriteHolding(f, net, c, x, link)
  }

  function OperateCrob(net: Network, commands: seq<CommandPoint>, index: uint16, op: OperationType, link: Link)
    : (CommandStatus, Network)
  {
    match Find(commands, index, Coil)
    case None => (NOT_SUPPORTED, net)
    case Some(c) => WriteCoilBit(net, c, CoilValue(op), link)
  }

  function OutcomeOf(read: Option<real>, now: int): Outcome {
    match read
    case Some(v) => Good(v, now)
    case None => Bad(now)
  }

  /** The point's state and database value once one poll of it is over. */
  function Polled(f: Float32, net: Network, p: ReadPoint, s: State, link: Link, now: int): (State, DbValue) {
    var next := OnOutcome(s, OutcomeOf(Read(f, net, p, link), now));
    (next.(changed := false), Published(IsDiscrete(p.kind), next))
  }

  /** The outstation's values once that poll is published. */
  function AfterPolling(db: Database, f: Float32, net: Network, p: ReadPoint, s: State, link: Link, now: int): Database {
    db[KeyOf(p) := Polled(f, net, p, s, link, now).1]
  }

  /** What the initial states publish, whenever each of them was made. */
  function InitialEntries(points: seq<ReadPoint>): Database {
    if points == [] then map[]
    else
      var p := points[|points| - 1];
      InitialEntries(points[..|points| - 1])[KeyOf(p) := Published(IsDiscrete(p.kind), Initial(0))]
  }

  /** The initial update writes zero or false at exactly the points' keys. */
  lemma {:induction false} InitialEntriesAreZero(points: seq<ReadPoint>)
    ensures forall k :: k in InitialEntries(points) <==> exists p :: p in points && KeyOf(p) == k
    ensures forall k :: k in InitialEntries(points) ==>
              InitialEntries(points)[k] == if k.binary then BinaryValue(false) else AnalogValue(0.0)
  {
    if points != [] {
      var front := points[..|points| - 1];
      InitialEntriesAreZero(front);
      assert points[|points| - 1] in points;
      assert forall q :: q in points <==> q in front || q == points[|points| - 1];
    }
  }

  lemma InitialEntriesStep(front: seq<ReadPoint>, p: ReadPoint, start: int)
    ensures InitialEntries(front + [p]) ==
            InitialEntries(front)[KeyOf(p) := Published(IsDiscrete(p.kind), Initial(start))]
  {
  }

  // ------------------------------------------------------ commands

  lemma {:induction false} FoundTakes(points: seq<ReadPoint>, index: uint16, target: WriteTarget)
    requires Find(Mappings(points, target), index, target).Some?
    ensures var c := Find(Mappings(points, target), index, target).value;
            exists p :: p in points && Takes(p, target) && c == CommandOf(p, target)
  {
    FindInMappings(points, index, target);
    if !(Takes(points[0], target) && points[0].dnp3Index == index) {
      FoundTakes(points[1..], index, target);
    } else {
      assert points[0] in points;
    }
  }

  /** Select succeeds exactly when the same Operate is not answered NOT_SUPPORTED,
      whatever the value, the operation, the devices and the connection. */
  lemma SelectMatchesOperate(points: seq<ReadPoint>, index: uint16, f: Float32, net: Network, link: Link)
    ensures forall x :: (Select(Mappings(points, HoldingRegister), index, HoldingRegister) == SUCCESS <==>
                         OperateAnalog(f, net, Mappings(points, HoldingRegister), index, x, link).0 != NOT_SUPPORTED)
    ensures forall target :: var status := Select(Mappings(points, target), index, target);
                             status == SUCCESS || status == NOT_SUPPORTED
    ensures forall op :: (Select(Mappings(points, Coil), index, Coil) == SUCCESS <==>
                          OperateCrob(net, Mappings(points, Coil), index, op, link).0 != NOT_SUPPORTED)
  {
    hide Find, Mappings, WriteHolding, WriteCoilBit, IsHolding;
    FoundIsHolding(points, index);
    forall c: CommandPoint, x | IsHolding(c.valueType)
      ensures WriteHolding(f, net, c, x, link).0 != NOT_SUPPORTED
    {
      WritesAreSupported(f, net, c, x, true, link);
    }
    forall c, on
      ensures WriteCoilBit(net, c, on, link).0 != NOT_SUPPORTED
    {
      WritesAreSupported(f, net, c, 0.0, on, link);
    }
  }

  lemma FoundIsHolding(points: seq<ReadPoint>, index: uint16)
    ensures var c := Find(Mappings(points, HoldingRegister), index, HoldingRegister);
            c.Some? ==> IsHolding(c.value.valueType)
  {
    if Find(Mappings(points, HoldingRegister), index, HoldingRegister).Some? {
      FoundTakes(points, index, HoldingRegister);
    }
    hide Find, Mappings;
  }

  lemma WritesAreSupported(f: Float32, net: Network, c: CommandPoint, x: real, on: bool, link: Link)
    ensures WriteCoilBit(net, c, on, link).0 != NOT_SUPPORTED
    ensures IsHolding(c.valueType) ==> WriteHolding(f, net, c, x, link).0 != NOT_SUPPORTED
  {
    hide StoreWords, StoreCoil, RoundHalfAway, SplitWords;
  }

  /** Every point that does not overlap p polls the same on both networks. */
  ghost predicate PollsAsBefore(f: Float32, before: Network, after: Network, p: ReadPoint) {
    forall q, s, link, now :: !Overlap(p, q) ==> Polled(f, after, q, s, link, now) == Polled(f, before, q, s, link, now)
  }

  lemma SamplesKeptPollsKept(f: Float32, before: Network, after: Network, p: ReadPoint)
    requires forall q :: !Overlap(p, q) ==> Sample(f, after, q) == Sample(f, before, q)
    ensures PollsAsBefore(f, before, after, p)
  {
  }

  function CommandedValue(f: Float32, t: ReadValueType, x: real): real {
    if IsFloat(t) then f.valueOf(f.bitsOf(x)) else RoundHalfAway(x) as real
  }

  lemma SampleIsPolled(f: Float32, net: Network, p: ReadPoint, v: real, s: State, now: int)
    requires Sample(f, net, p) == Some(v)
    ensures Polled(f, net, p, s, Healthy, now).1 == Published(IsDiscrete(p.kind), OnSuccess(s, v, now))
  {
  }

  lemma CommandAddresses(p: ReadPoint, target: WriteTarget)
    ensures Addresses(CommandOf(p, target), p)
  {
  }

  lemma HoldingWriteThenPoll(
    f: Float32, net: Network, c: CommandPoint, p: ReadPoint, x: real, link: Link, s: State, now: int)
    requires Addresses(c, p) && IsHolding(p.kind)
    ensures var (status, after) := WriteHolding(f, net, c, x, link);
            && (status == SUCCESS ==> Polled(f, after, p, s, Healthy, now).1 == AnalogValue(CommandedValue(f, p.kind, x)))
            && PollsAsBefore(f, net, after, p)
  {
    hide WriteHolding, Sample, RoundHalfAway, Overlap, Polled, Addresses;
    var (status, after) := WriteHolding(f, net, c, x, link);
    HoldingWriteRead(f, net, c, p, x, link);
    SamplesKeptPollsKept(f, net, after, p);
    if status == SUCCESS {
      SampleIsPolled(f, after, p, CommandedValue(f, p.kind, x), s, now);
    }
  }

  lemma CoilWriteThenPoll(
    f: Float32, net: Network, c: CommandPoint, p: ReadPoint, on: bool, link: Link, s: State, now: int)
    requires Addresses(c, p) && p.kind.CoilStatusBool?
    ensures var (status, after) := WriteCoilBit(net, c, on, link);
            && (status == SUCCESS ==> Polled(f, after, p, s, Healthy, now).1 == BinaryValue(on))
            && PollsAsBefore(f, net, after, p)
  {
    hide WriteCoilBit, Sample, Overlap, Polled, Addresses;
    var (status, after) := WriteCoilBit(net, c, on, link);
    CoilWriteRead(f, net, c, p, on, link);
    SamplesKeptPollsKept(f, net, after, p);
    if status == SUCCESS {
      SampleIsPolled(f, after, p, if on then 1.0 else 0.0, s, now);
    }
  }

  /** End to end for registers: after a successful analog command at a holding
      point's own index, a poll publishes the rounded commanded value at that index
      (the carried 32 bits for a float point); whatever the command's outcome, every
      point on other registers polls as before. */
  lemma AnalogCommandThenPoll(
    f: Float32, net: Network, points: seq<ReadPoint>, k: int, x: real, link: Link, s: State, now: int)
    requires DistinctKeys(points) && 0 <= k < |points| && IsHolding(points[k].kind)
    ensures var p := points[k];
            var (status, after) := OperateAnalog(f, net, Mappings(points, HoldingRegister), p.dnp3Index, x, link);
            && (status == SUCCESS ==> Polled(f, after, p, s, Healthy, now).1 == AnalogValue(CommandedValue(f, p.kind, x)))
            && PollsAsBefore(f, net, after, p)
  {
    hide WriteHolding, Polled, PollsAsBefore, Mappings, Find, CommandOf, CommandedValue, DistinctKeys;
    CommandReachesPublisher(points, k, HoldingRegister);
    CommandAddresses(points[k], HoldingRegister);
    HoldingWriteThenPoll(f, net, CommandOf(points[k], HoldingRegister), points[k], x, link, s, now);
  }

  /** End to end for coils: a successful control-relay command makes the coil's
      binary true unless the operation was one of the two OFF operations. */
  lemma CrobThenPoll(
    f: Float32, net: Network, points: seq<ReadPoint>, k: int, op: OperationType, link: Link, s: State, now: int)
    requires DistinctKeys(points) && 0 <= k < |points| && points[k].kind.CoilStatusBool?
    ensures var p := points[k];
            var (status, after) := OperateCrob(net, Mappings(points, Coil), p.dnp3Index, op, link);
            && (status == SUCCESS ==>
                  Polled(f, after, p, s, Healthy, now).1 == BinaryValue(op != LatchOff && op != PulseOff))
            && PollsAsBefore(f, net, after, p)
  {
    hide WriteCoilBit, Polled, PollsAsBefore, Mappings, Find, CommandOf, DistinctKeys;
    CommandReachesPublisher(points, k, Coil);
    CommandAddresses(points[k], Coil);
    CoilWriteThenPoll(f, net, CommandOf(points[k], Coil), points[k], CoilValue(op), link, s, now);
  }

  // ------------------------------------------------------ that commands succeed, and where they show

  /** Only this entry of the database changed, to this value. */
  ghost predicate OnlyWrote(before: Database, after: Database, key: Key, value: DbValue) {
    && key in after && after[key] == value
    && (forall k :: k != key ==> (k in after <==> k in before))
    && (forall k :: k != key && k in before ==> after[k] == before[k])
  }

  /** A poll writes the entry of the point's own kind and DNP3 index, and no other. */
  lemma PollWritesOwnIndex(db: Database, f: Float32, net: Network, p: ReadPoint, s: State, link: Link, now: int)
    ensures OnlyWrote(db, AfterPolling(db, f, net, p, s, link, now),
                      Key(p.kind.CoilStatusBool? || p.kind.InputStatusBool?, p.dnp3Index),
                      Polled(f, net, p, s, link, now).1)
  {
    hide Polled;
  }

  lemma OwnAnalogCommand(f: Float32, net: Network, points: seq<ReadPoint>, k: int, x: real, link: Link)
    requires DistinctKeys(points) && 0 <= k < |points| && IsHolding(points[k].kind)
    ensures OperateAnalog(f, net, Mappings(points, HoldingRegister), points[k].dnp3Index, x, link)
            == WriteHolding(f, net, CommandOf(points[k], HoldingRegister), x, link)
    ensures Addresses(CommandOf(points[k], HoldingRegister), points[k])
  {
    CommandAddresses(points[k], HoldingRegister);
    assert Takes(points[k], HoldingRegister);
    hide WriteHolding, Mappings, Find, CommandOf, DistinctKeys, Addresses, Takes;
    CommandReachesPublisher(points, k, HoldingRegister);
  }

  lemma OwnCrobCommand(net: Network, points: seq<ReadPoint>, k: int, op: OperationType, link: Link)
    requires DistinctKeys(points) && 0 <= k < |points| && points[k].kind.CoilStatusBool?
    ensures OperateCrob(net, Mappings(points, Coil), points[k].dnp3Index, op, link)
            == WriteCoilBit(net, CommandOf(points[k], Coil), CoilValue(op), link)
    ensures Addresses(CommandOf(points[k], Coil), points[k])
  {
    CommandAddresses(points[k], Coil);
    assert Takes(points[k], Coil);
    hide WriteCoilBit, Mappings, Find, CommandOf, DistinctKeys, Addresses, Takes;
    CommandReachesPublisher(points, k, Coil);
  }

  /** On a healthy connection to a device that has the registers, an analog command at a
      holding point's own index succeeds for a float point always and for an integer
      point exactly when the value is strictly within half a unit of its type's range.
      The next poll then puts the commanded value into the analog entry of that index
      and nothing anywhere else; a value out of range changes no device. */
  lemma AnalogCommandPublishes(
    f: Float32, net: Network, points: seq<ReadPoint>, k: int, x: real, db: Database, s: State, now: int)
    requires DistinctKeys(points) && 0 <= k < |points| && IsHolding(points[k].kind) && Sample(f, net, points[k]).Some?
    ensures var p := points[k];
            var (status, after) := OperateAnalog(f, net, Mappings(points, HoldingRegister), p.dnp3Index, x, Healthy);
            var takes := IsFloat(p.kind) || MinOf(p.kind) as real - 0.5 < x < MaxOf(p.kind) as real + 0.5;
            && (status == SUCCESS <==> takes)
            && (!takes ==> status == OUT_OF_RANGE && after == net)
            && (takes ==> OnlyWrote(db, AfterPolling(db, f, after, p, s, Healthy, now), Key(false, p.dnp3Index),
                                    AnalogValue(CommandedValue(f, p.kind, x))))
  {
    var p, c := points[k], CommandOf(points[k], HoldingRegister);
    var (status, after) := OperateAnalog(f, net, Mappings(points, HoldingRegister), p.dnp3Index, x, Healthy);
    TakesExactly(f, p.kind, x);
    PollWritesOwnIndex(db, f, after, p, s, Healthy, now);
    hide OperateAnalog, WriteHolding, Polled, Mappings, CommandOf, CommandedValue, DistinctKeys, OnlyWrote, AfterPolling,
      Sample, Encode, PollsAsBefore, MinOf, MaxOf, Addresses;
    OwnAnalogCommand(f, net, points, k, x, Healthy);
    HoldingWriteExactly(f, net, c, p, x, Healthy);
    AnalogCommandThenPoll(f, net, points, k, x, Healthy, s, now);
  }

  lemma TakesExactly(f: Float32, t: ReadValueType, x: real)
    requires IsHolding(t)
    ensures Encode(f, t, x).Words? <==> IsFloat(t) || MinOf(t) as real - 0.5 < x < MaxOf(t) as real + 0.5
  {
    if !IsFloat(t) {
      RangeInReals(t, x);
    }
    hide RoundHalfAway;
  }

  /** The same for a control-relay command at a coil's own index, which always succeeds. */
  lemma CrobPublishes(
    f: Float32, net: Network, points: seq<ReadPoint>, k: int, op: OperationType, db: Database, s: State, now: int)
    requires DistinctKeys(points) && 0 <= k < |points| && points[k].kind.CoilStatusBool? && Sample(f, net, points[k]).Some?
    ensures var p := points[k];
            var (status, after) := OperateCrob(net, Mappings(points, Coil), p.dnp3Index, op, Healthy);
            && status == SUCCESS
            && OnlyWrote(db, AfterPolling(db, f, after, p, s, Healthy, now), Key(true, p.dnp3Index),
                         BinaryValue(op != LatchOff && op != PulseOff))
  {
    var p, c := points[k], CommandOf(points[k], Coil);
    var (status, after) := OperateCrob(net, Mappings(points, Coil), p.dnp3Index, op, Healthy);
    PollWritesOwnIndex(db, f, after, p, s, Healthy, now);
    hide OperateCrob, WriteCoilBit, Polled, Mappings, CommandOf, DistinctKeys, OnlyWrote, AfterPolling, Sample,
      PollsAsBefore, Addresses;
    OwnCrobCommand(net, points, k, op, Healthy);
    CoilWriteExactly(f, net, c, p, CoilValue(op), Healthy);
    CrobThenPoll(f, net, points, k, op, Healthy, s, now);
  }

  /** A command that finds no point, or whose connection breaks before the device acts,
      changes no device at all; the unmapped one is answered NOT_SUPPORTED. */
  lemma FailedCommandsChangeNothing(
    f: Float32, net: Network, points: seq<ReadPoint>, index: uint16, x: real, op: OperationType, link: Link)
    ensures var (status, after) := OperateAnalog(f, net, Mappings(points, HoldingRegister), index, x, link);
            var mapped := exists p :: p in points && IsHolding(p.kind) && p.dnp3Index == index;
            (!mapped ==> status == NOT_SUPPORTED) && (!mapped || link.Broken? ==> after == net)
    ensures var (status, after) := OperateCrob(net, Mappings(points, Coil), index, op, link);
            var mapped := exists p :: p in points && p.kind.CoilStatusBool? && p.dnp3Index == index;
            (!mapped ==> status == NOT_SUPPORTED) && (!mapped || link.Broken? ==> after == net)
  {
    LookupExactly(points, index, HoldingRegister);
    LookupExactly(points, index, Coil);
    hide Find, Mappings, Encode, StoreWords, StoreCoil, StatusOf;
  }

  // ------------------------------------------------------ polls one after another

  /** One poll: the devices as they are then, how its connection behaves, and when. */
  datatype Round = Round(net: Network, link: Link, now: int)

  function StateAfter(f: Float32, p: ReadPoint, start: int, rounds: seq<Round>): State {
    if rounds == [] then Initial(start)
    else
      var front, r := rounds[..|rounds| - 1], rounds[|rounds| - 1];
      Polled(f, r.net, p, StateAfter(f, p, start, front), r.link, r.now).0
  }

  /** The reads of these polls: a poll reads well exactly when its connection is healthy
      and its device has what the point reads. */
  ghost predicate AreReads(f: Float32, p: ReadPoint, rounds: seq<Round>, h: seq<Outcome>) {
    && |h| == |rounds|
    && forall i :: 0 <= i < |h| ==>
                     h[i] == if rounds[i].link.Healthy? && Sample(f, rounds[i].net, p).Some?
                             then Good(Sample(f, rounds[i].net, p).value, rounds[i].now)
                             else Bad(rounds[i].now)
  }

  /** The state kept by a run of polls is that of their reads, and what each poll
      publishes is what those reads ask for: the last good reading, or 0 when there was
      none or the last five or more failed. */
  lemma {:induction false} PollsFollowReads(f: Float32, p: ReadPoint, start: int, rounds: seq<Round>, h: seq<Outcome>, v: real)
    requires AreReads(f, p, rounds, h) && IsExpectedValue(h, v)
    ensures StateAfter(f, p, start, rounds) == After(start, h).(changed := rounds == [])
    ensures rounds != [] ==>
              var front, r := rounds[..|rounds| - 1], rounds[|rounds| - 1];
              Polled(f, r.net, p, StateAfter(f, p, start, front), r.link, r.now).1
              == if p.kind.CoilStatusBool? || p.kind.InputStatusBool? then BinaryValue(v != 0.0) else AnalogValue(v)
    decreases |rounds|
  {
    ValueMeaning(start, h);
    if rounds != [] {
      var front, r, past, o := rounds[..|rounds| - 1], rounds[|rounds| - 1], h[..|h| - 1], h[|h| - 1];
      ValueMeaning(start, past);
      PollsFollowReads(f, p, start, front, past, After(start, past).value);
      var before := StateAfter(f, p, start, front);
      assert OutcomeOf(Read(f, r.net, p, r.link), r.now) == o;
      hide IsExpectedValue, Sample, AreReads;
      assert OnOutcome(before, o) == OnOutcome(After(start, past), o) == After(start, h);
    }
  }

  // ------------------------------------------------------ the object

  class Gateway {
    const f: Float32
    const points: seq<ReadPoint>
    const analogCommands: seq<CommandPoint>
    const binaryCommands: seq<CommandPoint>
    const states: array<State>
    var db: Database
    var net: Network

    ghost predicate Valid() {
      && states.Length == |points|
      && analogCommands == Mappings(points, HoldingRegister)
      && binaryCommands == Mappings(points, Coil)
    }

    constructor (f: Float32, points: seq<ReadPoint>, net: Network)
      ensures Valid() && fresh(states)
      ensures this.f == f && this.points == points && this.net == net && db == map[]
    {
      this.f, this.points, this.net, db := f, points, net, map[];
      var analog, binary := BuildAutomaticCommandMappings(points);
      analogCommands, binaryCommands := analog, binary;
      states := new State[|points|](_ => Initial(0));
    }

    /** Every state starts over and every point's entry shows it; `clock(i)` is the
        time read for point i. */
    method ApplyInitialState(clock: nat -> int)
      requires Valid()
      modifies this`db, states
      ensures forall i :: 0 <= i < |points| ==> states[i] == Initial(clock(i))
      ensures db == old(db) + InitialEntries(points)
    {
      var updates: Database := map[];
      assert InitialEntries(points[..0]) == updates;
      for i := 0 to |points|
        invariant forall k :: 0 <= k < i ==> states[k] == Initial(clock(k))
        invariant updates == InitialEntries(points[..i]) && db == old(db)
      {
        var state := State(0.0, false, true, 0, clock(i));
        states[i] := state;
        assert points[..i + 1] == points[..i] + [points[i]];
        InitialEntriesStep(points[..i], points[i], clock(i));
        updates := updates[KeyOf(points[i]) := Published(IsDiscrete(points[i].kind), state)];
      }
      assert points[..|points|] == points;
      db := db + updates;
    }

    // -------------------------------------------------- reading

    method FillRegisters(table: map<int, uint16>, address: int, count: nat, buffer: array<uint16>)
      returns (ok: bool)
      requires count <= buffer.Length
      modifies buffer
      ensures ok == Has(table, address, count)
      ensures ok ==> buffer[..count] == ReadWords(table, address, count)
    {
      for i := 0 to count
        invariant Has(table, address, i)
        invariant forall k :: 0 <= k < i ==> buffer[k] == table[address + k]
      {
        if address + i !in table {
          return false;
        }
        buffer[i] := table[address + i];
      }
      ok := true;
    }

    method ReadModbusPoint(p: ReadPoint, link: Link) returns (r: Option<real>)
      ensures r == Read(f, net, p, link)
    {
      if !link.Healthy? || EndpointOf(p) !in net {
        return None;
      }
      var device := net[EndpointOf(p)];
      if IsDiscrete(p.kind) {
        var table := if p.kind.CoilStatusBool? then device.coils else device.discreteInputs;
        if Wire(p.address) !in table {
          return None;
        }
        return Some(if table[Wire(p.address)] then 1.0 else 0.0);
      }
      var buffer := new uint16[4](_ => 0);
      var table := if IsHolding(p.kind) then device.holdingRegisters else device.inputRegisters;
      var ok := FillRegisters(table, Wire(p.address), RegisterCount(p.kind), buffer);
      if !ok {
        return None;
      }
      r := Some(Decode(f, p.kind, buffer[..RegisterCount(p.kind)]));
    }

    // -------------------------------------------------- the locked updates of a poll

    method HandleCommunicationSuccess(i: nat, now: int)
      requires i < states.Length
      modifies states
      ensures states[..] == old(states[..])[i := OnSuccess(old(states[i]), old(states[i]).value, now)]
    {
      var previous := states[i].connected;
      states[i] := states[i].(connected := true);
      states[i] := states[i].(changed := states[i].connected != previous);
      states[i] := states[i].(failures := 0);
      if states[i].changed {
        states[i] := states[i].(since := now);
      }
    }

    method HandleCommunicationFailure(i: nat, now: int)
      requires i < states.Length
      modifies states
      ensures states[..] == old(states[..])[i := OnFailure(old(states[i]), now)]
    {
      var previous := states[i].connected;
      states[i] := states[i].(connected := false);
      states[i] := states[i].(changed := states[i].connected != previous);
      states[i] := states[i].(failures := states[i].failures + 1);
      if states[i].failures >= MAX_FAILURES_BEFORE_ZERO {
        states[i] := states[i].(value := 0.0);
      }
      if states[i].changed {
        states[i] := states[i].(since := now);
      }
    }

    method PublishPoint(i: nat)
      requires Valid() && i < |points|
      modifies this`db, states
      ensures states[..] == old(states[..])[i := old(states[i]).(changed := false)]
      ensures db == old(db)[KeyOf(points[i]) := Published(IsDiscrete(points[i].kind), old(states[i]))]
    {
      var value := Published(IsDiscrete(points[i].kind), states[i]);
      states[i] := states[i].(changed := false);
      db := db[KeyOf(points[i]) := value];
    }

    /** One round of a point's polling thread. */
    method PollPoint(i: nat, link: Link, now: int)
      requires Valid() && i < |points|
      modifies this`db, states
      ensures states[..] == old(states[..])[i := Polled(f, net, points[i], old(states[i]), link, now).0]
      ensures db == AfterPolling(old(db), f, net, points[i], old(states[i]), link, now)
    {
      var read := ReadModbusPoint(points[i], link);
      hide Read;
      if read.Some? {
        states[i] := states[i].(value := read.value);
        HandleCommunicationSuccess(i, now);
      } else {
        HandleCommunicationFailure(i, now);
      }
      assert states[..] == old(states[..])[i := OnOutcome(old(states[i]), OutcomeOf(read, now))];
      PublishPoint(i);
    }

    // -------------------------------------------------- commands

    method WriteHoldingRegister(c: CommandPoint, value: real, link: Link) returns (status: CommandStatus)
      requires IsIntegerHolding(c.valueType) ==> Roundable(value)
      modifies this`net
      ensures (status, net) == WriteHolding(f, old(net), c, value, link)
    {
      var regs := new uint16[2](_ => 0);
      var ok, count, payloadStatus := BuildHoldingRegisterWritePayload(f, c.valueType, value, regs);
      if !ok {
        return payloadStatus;
      }
      hide StoreWords;
      var (outcome, after) := Transact(net, StoreWords(net, c, regs[..count]), link);
      net := after;
      status := outcome;
    }

    method WriteCoil(c: CommandPoint, on: bool, link: Link) returns (status: CommandStatus)
      modifies this`net
      ensures (status, net) == WriteCoilBit(old(net), c, on, link)
    {
      var (outcome, after) := Transact(net, StoreCoil(net, c, on), link);
      net := after;
      status := outcome;
    }

    method OperateAnalogCommand(index: uint16, value: real, link: Link) returns (status: CommandStatus)
      requires Valid()
      requires forall c :: Find(analogCommands, index, HoldingRegister) == Some(c) && IsIntegerHolding(c.valueType) ==>
                             Roundable(value)
      modifies this`net
      ensures (status, net) == OperateAnalog(f, old(net), analogCommands, index, value, link)
    {
      var c := FindCommandConfig(analogCommands, index, HoldingRegister);
      if c.None? {
        return NOT_SUPPORTED;
      }
      status := WriteHoldingRegister(c.value, value, link);
    }

    method OperateCrobCommand(index: uint16, op: OperationType, link: Link) returns (status: CommandStatus)
      requires Valid()
      modifies this`net
      ensures (status, net) == OperateCrob(old(net), binaryCommands, index, op, link)
    {
      var c := FindCommandConfig(binaryCommands, index, Coil);
      if c.None? {
        return NOT_SUPPORTED;
      }
      var on := true;
      match op {
        case LatchOn | PulseOn => on := true;
        case LatchOff | PulseOff => on := false;
        case OtherOperation => on := true;
      }
      status := WriteCoil(c.value, on, link);
    }
  }
}
