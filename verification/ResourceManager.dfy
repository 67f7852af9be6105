/** Ownership bookkeeping of opendnp3's ResourceManager under concurrent Bind,
    Detach and Shutdown calls. Each critical section is one atomic step; a Shutdown
    is two phases, the second outside the mutex. */
module ResourceManagers {
  import opened PointTypes

  type Resource = nat
  type CallId = nat

  // ------------------------------------------------------------- the object

  class ResourceManager {
    var isShuttingDown: bool
    var resources: set<Resource>

    constructor ()
      ensures !isShuttingDown && resources == {}
    {
      isShuttingDown, resources := false, {};
    }

    /** `created` is what the creation callback returned, null as None; a manager
        that is shutting down does not call it. */
    method Bind(created: Option<Resource>) returns (item: Option<Resource>)
      modifies this`resources
      ensures (item, resources) == BindSpec(isShuttingDown, old(resources), created)
      ensures item == if isShuttingDown then None else created
      ensures resources == if item.Some? then old(resources) + {item.value} else old(resources)
    {
      if isShuttingDown {
        return None;
      }
      item := created;
      if item.Some? {
        resources := resources + {item.value};
      }
    }

    method Detach(resource: Resource)
      modifies this`resources
      ensures resources == old(resources) - {resource}
    {
      resources := resources - {resource};
    }

    /** The locked first phase: the copy takes over everything tracked. */
    method BeginShutdown() returns (copy: set<Resource>)
      modifies this
      ensures isShuttingDown && resources == {} && copy == old(resources)
    {
      isShuttingDown := true;
      copy := {};
      var todo := resources;
      while todo != {}
        invariant copy + todo == resources && isShuttingDown && resources == old(resources)
        decreases todo
      {
        var r :| r in todo;
        copy, todo := copy + {r}, todo - {r};
      }
      resources := {};
    }

    /** A whole call with nothing running beside it: exactly the tracked resources
        are shut down, each once. */
    method Shutdown() returns (calls: seq<Resource>)
      modifies this
      ensures isShuttingDown && resources == {}
      ensures forall r :: r in calls <==> r in old(resources)
      ensures forall i, j :: 0 <= i < j < |calls| ==> calls[i] != calls[j]
    {
      var copy := BeginShutdown();
      calls := [];
      var todo := copy;
      while todo != {}
        invariant todo <= copy
        invariant forall r :: r in calls <==> r in copy - todo
        invariant forall i, j :: 0 <= i < j < |calls| ==> calls[i] != calls[j]
        invariant isShuttingDown && resources == {}
        decreases todo
      {
        var r :| r in todo;
        assert r !in calls;
        calls := calls + [r];
        todo := todo - {r};
      }
    }
  }

  function BindSpec(shuttingDown: bool, resources: set<Resource>, created: Option<Resource>)
    : (Option<Resource>, set<Resource>)
  {
    if shuttingDown then (None, resources)
    else (created, match created case Some(r) => resources + {r} case None => resources)
  }

  // ------------------------------------------------------------- the machine

  /** `todo[c]` is what call c has copied and not yet shut down. The last three
      fields record the past: who returned what, and which calls were made. */
  datatype State = State(
    shuttingDown: bool,
    tracked: set<Resource>,
    todo: map<CallId, set<Resource>>,
    bound: set<Resource>,
    detached: set<Resource>,
    claims: map<CallId, set<Resource>>,
    shutdownCalls: seq<Resource>)

  datatype Step =
    | Bind(created: Option<Resource>)
    | Detach(resource: Resource)
    | BeginShutdown(call: CallId)
    | ShutdownOne(call: CallId, resource: Resource)

  const INITIAL := State(false, {}, map[], {}, {}, map[], [])

  predicate Enabled(s: State, step: Step) {
    match step
    case Bind(_) | Detach(_) => true
    case BeginShutdown(c) => c !in s.todo
    case ShutdownOne(c, r) => c in s.todo && r in s.todo[c]
  }

  function Next(s: State, step: Step): State
    requires Enabled(s, step)
  {
    match step
    case Bind(created) =>
      var (item, tracked) := BindSpec(s.shuttingDown, s.tracked, created);
      if item.None? then s
      else s.(tracked := tracked, bound := s.bound + {item.value}, detached := s.detached - {item.value})
    case Detach(r) =>
      s.(tracked := s.tracked - {r}, detached := if r in s.tracked then s.detached + {r} else s.detached)
    case BeginShutdown(c) =>
      s.(shuttingDown := true, tracked := {}, todo := s.todo[c := s.tracked], claims := s.claims[c := s.tracked])
    case ShutdownOne(c, r) =>
      s.(todo := s.todo[c := s.todo[c] - {r}], shutdownCalls := s.shutdownCalls + [r])
  }

  function Run(s: State, steps: seq<Step>): Option<State>
    decreases |steps|
  {
    if steps == [] then Some(s)
    else if !Enabled(s, steps[0]) then None
    else Run(Next(s, steps[0]), steps[1..])
  }

  ghost predicate Claimed(s: State, r: Resource) {
    exists c :: c in s.claims && r in s.claims[c]
  }

  /** Every resource Bind has returned is in exactly one place: tracked, detached, or
      claimed; by one call at most; and nothing else is anywhere. */
  ghost predicate Owned(s: State) {
    && (forall r :: r in s.bound <==> r in s.tracked || r in s.detached || Claimed(s, r))
    && s.tracked !! s.detached
    && (forall r :: Claimed(s, r) ==> r !in s.tracked && r !in s.detached)
    && (forall c, d, r :: c in s.claims && d in s.claims && r in s.claims[c] && r in s.claims[d] ==> c == d)
  }

  /** Each call shuts down what it claimed, once, and nothing else is shut down. */
  ghost predicate CallsMatch(s: State) {
    && s.todo.Keys == s.claims.Keys
    && (forall c :: c in s.claims ==> s.todo[c] <= s.claims[c])
    && (forall r :: r in s.shutdownCalls <==> exists c :: c in s.claims && r in s.claims[c] - s.todo[c])
    && (forall i, j :: 0 <= i < j < |s.shutdownCalls| ==> s.shutdownCalls[i] != s.shutdownCalls[j])
  }

  ghost predicate Invariant(s: State) {
    && Owned(s) && CallsMatch(s)
    && (s.shuttingDown ==> s.tracked == {})
    && (s.shuttingDown <==> s.claims != map[])
  }

  lemma BindOwned(s: State, created: Option<Resource>)
    requires Invariant(s)
    ensures Invariant(Next(s, Bind(created)))
  {
  }

  lemma DetachOwned(s: State, r: Resource)
    requires Invariant(s)
    ensures Invariant(Next(s, Detach(r)))
  {
  }

  lemma BeginOwned(s: State, c: CallId)
    requires Invariant(s) && c !in s.todo
    ensures Invariant(Next(s, BeginShutdown(c)))
  {
    var next := Next(s, BeginShutdown(c));
    assert forall d :: d in s.claims ==> d != c && next.claims[d] == s.claims[d];
    assert next.claims[c] == s.tracked && c in next.claims;
    assert forall x :: Claimed(next, x) <==> Claimed(s, x) || x in s.tracked;
    assert forall x :: x in s.shutdownCalls <==> exists d :: d in next.claims && x in next.claims[d] - next.todo[d];
  }

  lemma OneOwned(s: State, c: CallId, r: Resource)
    requires Invariant(s) && c in s.todo && r in s.todo[c]
    ensures Invariant(Next(s, ShutdownOne(c, r)))
  {
    var next := Next(s, ShutdownOne(c, r));
    assert forall x :: Claimed(next, x) == Claimed(s, x);
    assert r !in s.shutdownCalls;
    forall x
      ensures x in next.shutdownCalls <==> exists d :: d in next.claims && x in next.claims[d] - next.todo[d]
    {
      if x == r {
        assert c in next.claims && x in next.claims[c] - next.todo[c];
      } else {
        assert x in next.shutdownCalls <==> x in s.shutdownCalls;
        assert forall d :: d in s.claims ==> (x in s.claims[d] - s.todo[d] <==> x in next.claims[d] - next.todo[d]);
      }
    }
  }

  /** Over every interleaving: nothing Bind returned is lost, claimed by two calls,
      or shut down twice by the manager; and once shutting down the manager tracks
      nothing. */
  lemma {:induction false} EveryRunOwned(s: State, steps: seq<Step>)
    requires Invariant(s) && Run(s, steps).Some?
    ensures Invariant(Run(s, steps).value)
    decreases |steps|
  {
    hide Invariant;
    if steps != [] {
      match steps[0] {
        case Bind(created) => BindOwned(s, created);
        case Detach(r) => DetachOwned(s, r);
        case BeginShutdown(c) => BeginOwned(s, c);
        case ShutdownOne(c, r) => OneOwned(s, c, r);
      }
      EveryRunOwned(Next(s, steps[0]), steps[1..]);
    }
  }

  /** What one step does for a caller: while the manager is up Bind returns and tracks what
      was created; Detach stops tracking this resource alone; a Shutdown call takes over
      everything tracked; and it shuts down one resource of its own at a time. */
  lemma StepsExactly(s: State, created: Option<Resource>, r: Resource, c: CallId)
    ensures var next := Next(s, Bind(created));
            if s.shuttingDown || created.None? then next == s
            else next.tracked == s.tracked + {created.value} && next.bound == s.bound + {created.value} && !next.shuttingDown
    ensures var next := Next(s, Detach(r));
            && next.tracked == s.tracked - {r} && next.bound == s.bound && next.todo == s.todo
            && (r in s.tracked ==> r in next.detached)
    ensures c !in s.todo ==>
              var next := Next(s, BeginShutdown(c));
              next.shuttingDown && next.tracked == {} && c in next.claims && next.claims[c] == s.tracked == next.todo[c]
    ensures c in s.todo && r in s.todo[c] ==>
              var next := Next(s, ShutdownOne(c, r));
              && next.shutdownCalls == s.shutdownCalls + [r] && r !in next.todo[c]
              && next.tracked == s.tracked && next.shuttingDown == s.shuttingDown
  {
  }

  lemma FromStart(steps: seq<Step>)
    requires Run(INITIAL, steps).Some?
    ensures Invariant(Run(INITIAL, steps).value)
  {
    EveryRunOwned(INITIAL, steps);
  }

  /** After the first Shutdown has taken the flag, Bind returns null for ever. */
  lemma {:induction false} ShutdownIsFinal(s: State, steps: seq<Step>)
    requires s.shuttingDown && Run(s, steps).Some?
    ensures Run(s, steps).value.shuttingDown && Run(s, steps).value.bound == s.bound
    decreases |steps|
  {
    if steps != [] {
      ShutdownIsFinal(Next(s, steps[0]), steps[1..]);
    }
  }

  /** When every Shutdown call has finished, exactly the resources bound and not
      detached have been shut down. */
  lemma FinishedShutdownsCoverAll(steps: seq<Step>)
    requires Run(INITIAL, steps).Some?
    requires var s := Run(INITIAL, steps).value; s.shuttingDown && forall c :: c in s.todo ==> s.todo[c] == {}
    ensures var s := Run(INITIAL, steps).value;
            forall r :: r in s.shutdownCalls <==> r in s.bound && r !in s.detached
  {
    FromStart(steps);
    var s := Run(INITIAL, steps).value;
    forall r
      ensures r in s.shutdownCalls <==> r in s.bound && r !in s.detached
    {
      if Claimed(s, r) {
        var c :| c in s.claims && r in s.claims[c];
        assert r in s.claims[c] - s.todo[c];
      }
    }
  }
}
