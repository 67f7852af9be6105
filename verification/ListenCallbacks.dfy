/** The session list of the example GPRS master: a vector that behaves as a map from
    outstation address to session (ExampleListenCallbacks.cpp). */
module ListenCallbacks {
  import opened PointTypes

  type SessionId = nat
  type MasterSession = nat

  datatype SessionInfo = SessionInfo(id: SessionId, address: uint16, session: MasterSession)

  /** What the library reports; `session` is the one the acceptor creates. */
  datatype Event =
    | FirstFrame(id: SessionId, address: uint16, session: MasterSession)
    | Close(id: SessionId)

  /** The vector, and the sessions told to shut down so far. */
  datatype Vector = Vector(sessions: seq<SessionInfo>, shut: seq<MasterSession>)

  /** The map the vector stands for. */
  datatype Table = Table(entries: map<uint16, SessionInfo>, shut: seq<MasterSession>)

  // ------------------------------------------------------------- the two machines

  function FindAddress(s: seq<SessionInfo>, address: uint16): (i: nat)
    ensures i <= |s| && (i < |s| ==> s[i].address == address)
    ensures forall k :: 0 <= k < i ==> s[k].address != address
  {
    if s == [] || s[0].address == address then 0 else 1 + FindAddress(s[1..], address)
  }

  function FindId(s: seq<SessionInfo>, id: SessionId): (i: nat)
    ensures i <= |s| && (i < |s| ==> s[i].id == id)
    ensures forall k :: 0 <= k < i ==> s[k].id != id
  {
    if s == [] || s[0].id == id then 0 else 1 + FindId(s[1..], id)
  }

  /** The vector without its element i, if it has one. */
  function Erase(s: seq<SessionInfo>, i: nat): seq<SessionInfo> {
    if s == [] then s else if i == 0 then s[1..] else [s[0]] + Erase(s[1..], i - 1)
  }

  lemma {:induction false} EraseIsSplice(s: seq<SessionInfo>, i: nat)
    ensures Erase(s, i) == if i < |s| then s[..i] + s[i + 1..] else s
  {
    if s != [] && i > 0 {
      EraseIsSplice(s[1..], i - 1);
    }
  }

  function OnEvent(v: Vector, e: Event): Vector {
    match e
    case FirstFrame(id, address, session) =>
      var i := FindAddress(v.sessions, address);
      Vector(Erase(v.sessions, i) + [SessionInfo(id, address, session)],
             if i < |v.sessions| then v.shut + [v.sessions[i].session] else v.shut)
    case Close(id) =>
      v.(sessions := Erase(v.sessions, FindId(v.sessions, id)))
  }

  function OnTable(t: Table, e: Event): Table {
    match e
    case FirstFrame(id, address, session) =>
      Table(t.entries[address := SessionInfo(id, address, session)],
            if address in t.entries then t.shut + [t.entries[address].session] else t.shut)
    case Close(id) =>
      t.(entries := map a | a in t.entries && t.entries[a].id != id :: t.entries[a])
  }

  function Run(v: Vector, events: seq<Event>): Vector
    decreases |events|
  {
    if events == [] then v else Run(OnEvent(v, events[0]), events[1..])
  }

  function RunTable(t: Table, events: seq<Event>): Table
    decreases |events|
  {
    if events == [] then t else RunTable(OnTable(t, events[0]), events[1..])
  }

  // ------------------------------------------------------------- refinement

  ghost predicate UniqueAddresses(s: seq<SessionInfo>) {
    s == [] || ((forall x :: x in s[1..] ==> x.address != s[0].address) && UniqueAddresses(s[1..]))
  }

  /** Unique addresses, said of any two places in the vector. */
  lemma {:induction false} UniqueAddressesAtAll(s: seq<SessionInfo>)
    ensures UniqueAddresses(s) <==> forall i, j :: 0 <= i < j < |s| ==> s[i].address != s[j].address
  {
    if s != [] {
      var rest := s[1..];
      UniqueAddressesAtAll(rest);
      if forall i, j :: 0 <= i < j < |s| ==> s[i].address != s[j].address {
        assert forall k :: 0 <= k < |rest| ==> rest[k] == s[k + 1];
        forall x | x in rest
          ensures x.address != s[0].address
        {
          var k :| 0 <= k < |rest| && rest[k] == x;
          assert s[k + 1] == x;
        }
      } else {
        var i, j :| 0 <= i < j < |s| && s[i].address == s[j].address;
        assert s[j] == rest[j - 1] && s[j] in rest && (i > 0 ==> s[i] == rest[i - 1]);
      }
    }
  }

  lemma {:induction false} FindAddressOf(s: seq<SessionInfo>, x: SessionInfo)
    requires UniqueAddresses(s) && x in s
    ensures FindAddress(s, x.address) < |s| && s[FindAddress(s, x.address)] == x
  {
    if s[0] != x {
      FindAddressOf(s[1..], x);
    }
  }

  ghost predicate Represents(v: Vector, t: Table) {
    && v.shut == t.shut && UniqueAddresses(v.sessions)
    && (forall a :: a in t.entries ==> t.entries[a].address == a && t.entries[a] in v.sessions)
    && (forall x :: x in v.sessions ==> x.address in t.entries && t.entries[x.address] == x)
  }

  ghost predicate AtMostOne(s: seq<SessionInfo>, id: SessionId) {
    forall x, y :: x in s && y in s && x.id == id && y.id == id ==> x == y
  }

  lemma {:induction false} EraseKeeps(s: seq<SessionInfo>, i: nat)
    requires UniqueAddresses(s)
    ensures UniqueAddresses(Erase(s, i))
    ensures forall x :: x in Erase(s, i) <==> x in s && (i < |s| ==> x != s[i])
  {
    if s != [] {
      var first, rest := s[0], s[1..];
      assert forall x :: x in s <==> x == first || x in rest;
      if i > 0 {
        EraseKeeps(rest, i - 1);
        var kept := Erase(rest, i - 1);
        assert i < |s| ==> s[i] == rest[i - 1] && s[i] in rest;
        var r := [first] + kept;
        assert r[1..] == kept && Erase(s, i) == r;
        hide Erase;
        assert forall x :: x in r <==> x == first || x in kept;
      }
    }
  }

  lemma AddressFound(v: Vector, t: Table, address: uint16)
    requires Represents(v, t)
    ensures var i := FindAddress(v.sessions, address);
            && (address in t.entries <==> i < |v.sessions|)
            && (i < |v.sessions| ==> v.sessions[i] in v.sessions && t.entries[address] == v.sessions[i])
  {
  }

  /** What a first frame leaves of the vector: nothing with its address. */
  lemma KeptAddresses(s: seq<SessionInfo>, address: uint16)
    requires UniqueAddresses(s)
    ensures var kept := Erase(s, FindAddress(s, address));
            && UniqueAddresses(kept)
            && (forall x :: x in kept <==> x in s && x.address != address)
  {
    hide UniqueAddresses;
    var i := FindAddress(s, address);
    EraseKeeps(s, i);
    assert i < |s| ==> s[i] in s;
    hide Erase;
    forall x | x in s && x.address == address
      ensures i < |s| && s[i] == x
    {
      FindAddressOf(s, x);
    }
  }

  lemma {:induction false} AppendUnique(kept: seq<SessionInfo>, entry: SessionInfo)
    requires UniqueAddresses(kept) && forall x :: x in kept ==> x.address != entry.address
    ensures UniqueAddresses(kept + [entry])
    ensures forall x :: x in kept + [entry] <==> x in kept || x == entry
  {
    if kept != [] {
      AppendUnique(kept[1..], entry);
      var r := kept + [entry];
      assert r[1..] == kept[1..] + [entry] && r[0] == kept[0];
      assert forall x :: x in kept <==> x == kept[0] || x in kept[1..];
    }
  }

  /** A close, by what it keeps. */
  lemma CloseEffect(s: seq<SessionInfo>, id: SessionId)
    requires UniqueAddresses(s)
    ensures var i, kept := FindId(s, id), Erase(s, FindId(s, id));
            && UniqueAddresses(kept)
            && (i < |s| ==> s[i] in s && s[i].id == id)
            && (forall x :: x in kept <==> x in s && (i < |s| ==> x != s[i]))
            && (i == |s| ==> forall x :: x in s ==> x.id != id)
  {
  }

  /** A close removes what the map removes if and only if at most one entry has the id. */
  lemma CloseAgreesExactly(v: Vector, t: Table, id: SessionId)
    requires Represents(v, t)
    ensures Represents(OnEvent(v, Close(id)), OnTable(t, Close(id))) <==> AtMostOne(v.sessions, id)
  {
    hide UniqueAddresses;
    CloseEffect(v.sessions, id);
    var next, after := OnEvent(v, Close(id)).sessions, OnTable(t, Close(id)).entries;
    hide Erase, FindId;
    if AtMostOne(v.sessions, id) {
      assert forall x :: x in next <==> x in v.sessions && x.id != id;
      hide AtMostOne;
    } else {
      var x, y :| x in v.sessions && y in v.sessions && x.id == id && y.id == id && x != y;
      assert x in next || y in next;
      assert x.address !in after && y.address !in after;
      hide AtMostOne;
    }
  }

  /** One id on two connections: after the close of that id the vector keeps the second
      of them, which the map has dropped. */
  lemma ReusedIdBreaksMap()
    ensures var events := [FirstFrame(1, 10, 100), FirstFrame(1, 20, 200), Close(1)];
            var v, t := Run(Vector([], []), events), RunTable(Table(map[], []), events);
            v.sessions == [SessionInfo(1, 20, 200)] && t.entries == map[] && !Represents(v, t)
  {
    var e1, e2, e3 := FirstFrame(1, 10, 100), FirstFrame(1, 20, 200), Close(1);
    ReusedIdVector();
    ReusedIdTable();
    hide OnEvent, OnTable, UniqueAddresses;
    ThreeSteps(Vector([], []), Table(map[], []), e1, e2, e3);
    assert SessionInfo(1, 20, 200) in [SessionInfo(1, 20, 200)];
  }

  lemma ThreeSteps(v: Vector, t: Table, e1: Event, e2: Event, e3: Event)
    ensures Run(v, [e1, e2, e3]) == OnEvent(OnEvent(OnEvent(v, e1), e2), e3)
    ensures RunTable(t, [e1, e2, e3]) == OnTable(OnTable(OnTable(t, e1), e2), e3)
  {
    hide OnEvent, OnTable;
    assert [e1, e2, e3][1..] == [e2, e3] && [e2, e3][1..] == [e3] && [e3][1..] == [];
    assert Run(OnEvent(v, e1), [e2, e3]) == Run(OnEvent(OnEvent(v, e1), e2), [e3]);
    assert RunTable(OnTable(t, e1), [e2, e3]) == RunTable(OnTable(OnTable(t, e1), e2), [e3]);
  }

  lemma ReusedIdVector()
    ensures OnEvent(OnEvent(OnEvent(Vector([], []), FirstFrame(1, 10, 100)), FirstFrame(1, 20, 200)), Close(1))
            == Vector([SessionInfo(1, 20, 200)], [])
  {
    var a, b := SessionInfo(1, 10, 100), SessionInfo(1, 20, 200);
    assert OnEvent(Vector([], []), FirstFrame(1, 10, 100)) == Vector([a], []);
    assert [a][1..] == [] && OnEvent(Vector([a], []), FirstFrame(1, 20, 200)) == Vector([a, b], []);
  }

  lemma ReusedIdTable()
    ensures OnTable(OnTable(OnTable(Table(map[], []), FirstFrame(1, 10, 100)), FirstFrame(1, 20, 200)), Close(1)).entries
            == map[]
  {
  }

  ghost predicate Clash(x: SessionInfo, y: SessionInfo) {
    x.id == y.id || x.session == y.session
  }

  /** Ids, sessions and shut-down sessions are all different. */
  ghost predicate Distinct(v: Vector) {
    && UniqueAddresses(v.sessions)
    && (forall x, y :: x in v.sessions && y in v.sessions && Clash(x, y) ==> x == y)
    && (forall x :: x in v.sessions ==> x.session !in v.shut)
    && (forall i, j :: 0 <= i < j < |v.shut| ==> v.shut[i] != v.shut[j])
  }

  /** No later first frame repeats this one's id or session. */
  ghost predicate Unused(id: SessionId, session: MasterSession, events: seq<Event>) {
    forall e :: e in events && e.FirstFrame? ==> e.id != id && e.session != session
  }

  /** The ids and sessions of the coming first frames are new and all different. */
  ghost predicate Fresh(v: Vector, events: seq<Event>)
    decreases |events|
  {
    && (forall x :: x in v.sessions ==> Unused(x.id, x.session, events))
    && (forall e :: e in events && e.FirstFrame? ==> e.session !in v.shut)
    && NewInTurn(events)
  }

  ghost predicate NewInTurn(events: seq<Event>)
    decreases |events|
  {
    events == [] ||
    (NewInTurn(events[1..]) && (events[0].FirstFrame? ==> Unused(events[0].id, events[0].session, events[1..])))
  }

  /** A first frame, by what it keeps, adds and shuts down. */
  lemma FirstFrameEffect(v: Vector, e: Event)
    requires UniqueAddresses(v.sessions) && e.FirstFrame?
    ensures var next, entry := OnEvent(v, e), SessionInfo(e.id, e.address, e.session);
            && UniqueAddresses(next.sessions)
            && (forall x :: x in next.sessions <==> x == entry || (x in v.sessions && x.address != e.address))
            && (next.shut == v.shut || Overrides(v, e.address, next.shut))
  {
    hide UniqueAddresses;
    var i := FindAddress(v.sessions, e.address);
    KeptAddresses(v.sessions, e.address);
    AppendUnique(Erase(v.sessions, i), SessionInfo(e.id, e.address, e.session));
    assert i < |v.sessions| ==> v.sessions[i] in v.sessions;
  }

  ghost predicate Overrides(v: Vector, address: uint16, shut: seq<MasterSession>) {
    exists x :: x in v.sessions && x.address == address && shut == v.shut + [x.session]
  }

  lemma SameShut(v: Vector, t: Table, e: Event)
    requires Represents(v, t) && e.FirstFrame?
    ensures OnEvent(v, e).shut == OnTable(t, e).shut
  {
    AddressFound(v, t, e.address);
    hide UniqueAddresses, Represents, Erase;
  }

  /** A first frame always overrides as the map does, whatever the ids. */
  lemma FirstFrameAgrees(v: Vector, t: Table, e: Event)
    requires Represents(v, t) && e.FirstFrame?
    ensures Represents(OnEvent(v, e), OnTable(t, e))
  {
    hide UniqueAddresses, OnEvent, Overrides;
    FirstFrameEffect(v, e);
    SameShut(v, t, e);
  }

  lemma FirstFrameDistinct(v: Vector, e: Event)
    requires Distinct(v) && e.FirstFrame? && e.session !in v.shut
    requires forall x :: x in v.sessions ==> x.id != e.id && x.session != e.session
    ensures Distinct(OnEvent(v, e))
  {
    hide UniqueAddresses;
    FirstFrameEffect(v, e);
    hide OnEvent;
  }

  lemma FirstFrameFresh(v: Vector, events: seq<Event>)
    requires UniqueAddresses(v.sessions) && events != [] && Fresh(v, events) && events[0].FirstFrame?
    ensures Fresh(OnEvent(v, events[0]), events[1..])
  {
    hide UniqueAddresses;
    FirstFrameEffect(v, events[0]);
    hide OnEvent;
    assert forall x :: x in events[1..] ==> x in events;
  }

  lemma CloseDistinct(v: Vector, events: seq<Event>)
    requires Distinct(v) && events != [] && Fresh(v, events) && events[0].Close?
    ensures Distinct(OnEvent(v, events[0])) && Fresh(OnEvent(v, events[0]), events[1..])
  {
    hide UniqueAddresses;
    EraseKeeps(v.sessions, FindId(v.sessions, events[0].id));
    assert forall x :: x in events[1..] ==> x in events;
    hide Erase, FindId;
  }

  /** Over every run with distinct session ids the vector is the map: addresses stay
      unique, the same sessions are shut down in the same order, none of them twice. */
  lemma {:induction false} RunRefinesMap(v: Vector, t: Table, events: seq<Event>)
    requires Represents(v, t) && Distinct(v) && Fresh(v, events)
    ensures Represents(Run(v, events), RunTable(t, events)) && Distinct(Run(v, events))
    decreases |events|
  {
    hide UniqueAddresses;
    if events != [] {
      if events[0].FirstFrame? {
        FirstFrameAgrees(v, t, events[0]);
        assert events[0] in events;
        FirstFrameDistinct(v, events[0]);
        FirstFrameFresh(v, events);
      } else {
        assert AtMostOne(v.sessions, events[0].id);
        CloseAgreesExactly(v, t, events[0].id);
        CloseDistinct(v, events);
      }
      hide Represents, Distinct, Fresh, OnEvent, OnTable;
      RunRefinesMap(OnEvent(v, events[0]), OnTable(t, events[0]), events[1..]);
    }
  }

  lemma RunFromEmpty(events: seq<Event>)
    requires Fresh(Vector([], []), events)
    ensures Represents(Run(Vector([], []), events), RunTable(Table(map[], []), events))
    ensures Distinct(Run(Vector([], []), events))
  {
    RunRefinesMap(Vector([], []), Table(map[], []), events);
  }

  /** The close of a connection whose session was overridden comes too late to touch
      anything, in particular not its successor. */
  lemma LateCloseIsHarmless(v: Vector, e: Event, superseded: SessionInfo)
    requires Distinct(v) && superseded in v.sessions && e.FirstFrame?
    requires e.address == superseded.address && e.id != superseded.id
    ensures OnEvent(OnEvent(v, e), Close(superseded.id)) == OnEvent(v, e)
    ensures superseded.session in OnEvent(v, e).shut
  {
    hide UniqueAddresses;
    var i, next := FindAddress(v.sessions, e.address), OnEvent(v, e).sessions;
    FindAddressOf(v.sessions, superseded);
    EraseKeeps(v.sessions, i);
    assert forall x :: x in next <==> x in Erase(v.sessions, i) || x == SessionInfo(e.id, e.address, e.session);
    assert forall x :: x in next ==> x.id != superseded.id;
    hide Erase, FindAddress;
    NoSuchId(next, superseded.id);
  }

  lemma NoSuchId(s: seq<SessionInfo>, id: SessionId)
    requires forall x :: x in s ==> x.id != id
    ensures Erase(s, FindId(s, id)) == s
  {
  }

  // ------------------------------------------------------------- the object

  class ExampleListenCallbacks {
    var sessions: seq<SessionInfo>

    constructor ()
      ensures sessions == []
    {
      sessions := [];
    }

    method IndexOfAddress(address: uint16) returns (i: nat)
      ensures i == FindAddress(sessions, address)
    {
      i := 0;
      while i < |sessions| && sessions[i].address != address
        invariant i <= |sessions| && FindAddress(sessions, address) == i + FindAddress(sessions[i..], address)
      {
        i := i + 1;
      }
    }

    method GetOutstationSession(address: uint16) returns (r: Option<MasterSession>)
      ensures forall t: Table :: Represents(Vector(sessions, t.shut), t) ==>
                            r == if address in t.entries then Some(t.entries[address].session) else None
    {
      var i := IndexOfAddress(address);
      r := if i < |sessions| then Some(sessions[i].session) else None;
    }

    /** `shut` is the session told to shut down, if any. */
    method OnFirstFrame(id: SessionId, address: uint16, accepted: MasterSession) returns (shut: Option<MasterSession>)
      modifies this
      ensures forall log :: OnEvent(Vector(old(sessions), log), FirstFrame(id, address, accepted)) ==
                            Vector(sessions, if shut.Some? then log + [shut.value] else log)
    {
      shut := None;
      var i := IndexOfAddress(address);
      EraseIsSplice(sessions, i);
      if i < |sessions| {
        shut := Some(sessions[i].session);
        sessions := sessions[..i] + sessions[i + 1..];
      }
      sessions := sessions + [SessionInfo(id, address, accepted)];
    }

    method OnConnectionClose(id: SessionId)
      modifies this
      ensures forall log :: OnEvent(Vector(old(sessions), log), Close(id)) == Vector(sessions, log)
    {
      var i := 0;
      while i < |sessions| && sessions[i].id != id
        invariant i <= |sessions| && FindId(sessions, id) == i + FindId(sessions[i..], id) && sessions == old(sessions)
      {
        i := i + 1;
      }
      EraseIsSplice(sessions, i);
      if i < |sessions| {
        sessions := sessions[..i] + sessions[i + 1..];
      }
    }
  }
}
