/** The live state of a point as a function of its read history (Config.cpp, Dnp3.cpp). */
module PointState {

  const MAX_FAILURES_BEFORE_ZERO := 5

  /** One finished read: whether it succeeded, its value if so, and when it was recorded. */
  datatype Outcome = Good(value: real, at: int) | Bad(at: int)

  datatype State = State(value: real, connected: bool, changed: bool, failures: nat, since: int)

  datatype DbValue = BinaryValue(on: bool) | AnalogValue(value: real)

  function Initial(start: int): State {
    State(0.0, false, true, 0, start)
  }

  function OnFailure(s: State, now: int): State {
    var failures := s.failures + 1;
    State(if failures >= MAX_FAILURES_BEFORE_ZERO then 0.0 else s.value, false, s.connected, failures,
          if s.connected then now else s.since)
  }

  function OnSuccess(s: State, value: real, now: int): State {
    State(value, true, !s.connected, 0, if s.connected then s.since else now)
  }

  function OnOutcome(s: State, o: Outcome): State {
    match o
    case Good(v, at) => OnSuccess(s, v, at)
    case Bad(at) => OnFailure(s, at)
  }

  /** The value UpdateDNP3Values hands to the outstation for a point. */
  function Published(binary: bool, s: State): DbValue {
    var v := if s.failures >= MAX_FAILURES_BEFORE_ZERO then 0.0 else s.value;
    if binary then BinaryValue(v != 0.0) else AnalogValue(v)
  }

  /** The state after a whole read history. */
  function After(start: int, h: seq<Outcome>): State {
    if h == [] then Initial(start) else OnOutcome(After(start, h[..|h| - 1]), h[|h| - 1])
  }

  // ------------------------------------- the history, read without the state

  /** k is the length of the run of failures the history ends in. */
  ghost predicate IsTrailingFailures(h: seq<Outcome>, k: int) {
    && 0 <= k <= |h|
    && (forall i :: |h| - k <= i < |h| ==> h[i].Bad?)
    && (k < |h| ==> h[|h| - 1 - k].Good?)
  }

  /** i is the last success. */
  ghost predicate IsLastGood(h: seq<Outcome>, i: int) {
    0 <= i < |h| && h[i].Good? && forall j :: i < j < |h| ==> h[j].Bad?
  }

  predicate GoodAt(h: seq<Outcome>, i: int) {
    0 <= i < |h| && h[i].Good?
  }

  /** Read i differs in outcome from the one before; before the first read the
      point counts as disconnected. */
  predicate Flips(h: seq<Outcome>, i: int) {
    0 <= i < |h| && GoodAt(h, i) != GoodAt(h, i - 1)
  }

  ghost predicate IsLastFlip(h: seq<Outcome>, i: int) {
    Flips(h, i) && forall j :: i < j < |h| ==> !Flips(h, j)
  }

  /** The value a point should show: its last good reading, or 0 when there was
      none or the last five or more reads failed. */
  ghost predicate IsExpectedValue(h: seq<Outcome>, v: real) {
    && (forall k :: IsTrailingFailures(h, k) && k >= 5 ==> v == 0.0)
    && (forall k, i :: IsTrailingFailures(h, k) && k < 5 && IsLastGood(h, i) ==> v == h[i].value)
    && ((forall o :: o in h ==> o.Bad?) ==> v == 0.0)
  }

  lemma FlipPrefix(h: seq<Outcome>, i: int)
    requires 0 <= i < |h| - 1
    ensures Flips(h, i) == Flips(h[..|h| - 1], i)
  {
  }

  /** failure_count is the length of the trailing run of failures. */
  lemma {:induction false} FailuresMeaning(start: int, h: seq<Outcome>)
    ensures IsTrailingFailures(h, After(start, h).failures)
  {
    if h != [] {
      FailuresMeaning(start, h[..|h| - 1]);
    }
  }

  /** connection_status is whether the last read succeeded. */
  lemma ConnectedMeaning(start: int, h: seq<Outcome>)
    ensures After(start, h).connected == GoodAt(h, |h| - 1)
  {
  }

  /** connection_changed, as the last read left it, is whether that read flipped the outcome. */
  lemma ChangedMeaning(start: int, h: seq<Outcome>)
    ensures After(start, h).changed == (h == [] || Flips(h, |h| - 1))
  {
  }

  lemma LastFlipOfPrefix(h: seq<Outcome>, p: seq<Outcome>, i: int)
    requires h != [] && p == h[..|h| - 1] && IsLastFlip(h, i) && i < |p|
    ensures !Flips(h, |p|) && IsLastFlip(p, i)
  {
    FlipPrefix(h, i);
    forall j | i < j < |p|
      ensures !Flips(p, j)
    {
      FlipPrefix(h, j);
    }
  }

  lemma NoFlipsInPrefix(h: seq<Outcome>, p: seq<Outcome>)
    requires h != [] && p == h[..|h| - 1] && forall i: int :: !Flips(h, i)
    ensures forall i: int :: !Flips(p, i)
  {
    forall i | 0 <= i < |p|
      ensures !Flips(p, i)
    {
      FlipPrefix(h, i);
    }
  }

  /** The last read changes the time exactly when it flips the outcome. */
  lemma SinceStep(start: int, h: seq<Outcome>)
    requires h != []
    ensures After(start, h).since ==
            if Flips(h, |h| - 1) then h[|h| - 1].at else After(start, h[..|h| - 1]).since
  {
    ConnectedMeaning(start, h[..|h| - 1]);
  }

  /** last_change_time is the time of the latest flip, or the start. */
  lemma {:induction false} SinceMeaning(start: int, h: seq<Outcome>)
    ensures forall i :: IsLastFlip(h, i) ==> After(start, h).since == h[i].at
    ensures (forall i: int :: !Flips(h, i)) ==> After(start, h).since == start
  {
    if h != [] {
      SinceMeaning(start, h[..|h| - 1]);
      SinceStep(start, h);
      hide After, GoodAt;
      forall i | IsLastFlip(h, i)
        ensures After(start, h).since == h[i].at
      {
        if i < |h| - 1 {
          LastFlipOfPrefix(h, h[..|h| - 1], i);
        }
      }
      if forall i: int :: !Flips(h, i) {
        NoFlipsInPrefix(h, h[..|h| - 1]);
      }
    }
  }

  /** A trailing run has one length. */
  lemma TrailingUnique(h: seq<Outcome>, j: int, k: int)
    requires IsTrailingFailures(h, j) && IsTrailingFailures(h, k)
    ensures j == k
  {
  }

  lemma {:induction false} StoredValue(start: int, h: seq<Outcome>)
    ensures After(start, h).failures >= 5 ==> After(start, h).value == 0.0
    ensures After(start, h).failures < 5 ==>
              forall i :: IsLastGood(h, i) ==> After(start, h).value == h[i].value
    ensures (forall o :: o in h ==> o.Bad?) ==> After(start, h).value == 0.0
  {
    if h != [] {
      var p := h[..|h| - 1];
      StoredValue(start, p);
      assert h[|h| - 1] in h;
      forall i | IsLastGood(h, i) && i < |p|
        ensures IsLastGood(p, i) && h[|h| - 1].Bad?
      {
      }
      if forall o :: o in h ==> o.Bad? {
        assert forall o :: o in p ==> o in h;
      }
    }
  }

  /** The stored value is the expected one after every history, so the failure
      guard applied when publishing never changes what is published. */
  lemma ValueMeaning(start: int, h: seq<Outcome>)
    ensures IsExpectedValue(h, After(start, h).value)
    ensures forall v :: IsExpectedValue(h, v) ==> v == After(start, h).value
    ensures Published(false, After(start, h)) == AnalogValue(After(start, h).value)
    ensures Published(true, After(start, h)) == BinaryValue(After(start, h).value != 0.0)
  {
    var s := After(start, h);
    FailuresMeaning(start, h);
    StoredValue(start, h);
    forall k | IsTrailingFailures(h, k)
      ensures k == s.failures
    {
      TrailingUnique(h, k, s.failures);
    }
    forall v | IsExpectedValue(h, v)
      ensures v == s.value
    {
      if s.failures < MAX_FAILURES_BEFORE_ZERO {
        if s.failures < |h| {
          assert IsLastGood(h, |h| - 1 - s.failures);
        } else {
          assert forall o :: o in h ==> o.Bad?;
        }
      }
    }
  }
}
