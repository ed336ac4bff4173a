/** The three-state circuit breaker of backend/app/core/retry.py.

    Calls that share a breaker interleave at every `await`, so a run is an arbitrary sequence of
    the breaker's locked sections, each stamped with the time at which it happened.
 */
module Breaker {
  import opened Common

  datatype CircuitState = CLOSED | OPEN | HALF_OPEN

  datatype Config = Config(failureThreshold: int, successThreshold: int, timeout: real)

  datatype State = State(
    state: CircuitState,
    failureCount: int,
    successCount: int,
    lastFailureTime: Option<real>)

  const INITIAL := State(CLOSED, 0, 0, None)

  /** `excluded` says that the exception is one of the configured excluded ones. */
  datatype Event =
    | Check(at: real)
    | Success(at: real)
    | Failure(excluded: bool, at: real)
    | Reset(at: real)

  // ---------------------------------------------------------------------------------------
  // One locked section
  // ---------------------------------------------------------------------------------------

  /** Python's truth value of an optional float. */
  predicate Truthy(t: Option<real>) {
    t.Some? && t.value != 0.0
  }

  /** `_check_state`: the state afterwards, and `retry_after` if the call is refused. */
  function Gate(c: Config, s: State, now: real): (State, Option<real>) {
    if s.state == OPEN && Truthy(s.lastFailureTime) then
      var elapsed := now - s.lastFailureTime.value;
      if elapsed >= c.timeout then (s.(state := HALF_OPEN, successCount := 0), None)
      else (s, Some(c.timeout - elapsed))
    else (s, None)
  }

  function AfterSuccess(c: Config, s: State): State {
    match s.state
    case HALF_OPEN =>
      var s' := s.(successCount := s.successCount + 1);
      if s'.successCount >= c.successThreshold then s'.(state := CLOSED, failureCount := 0) else s'
    case CLOSED => s.(failureCount := 0)
    case OPEN => s
  }

  function AfterFailure(c: Config, s: State, now: real): State {
    if s.state == OPEN then s
    else
      var s' := s.(failureCount := s.failureCount + 1, lastFailureTime := Some(now));
      if s.state == HALF_OPEN || s'.failureCount >= c.failureThreshold then s'.(state := OPEN) else s'
  }

  function Step(c: Config, s: State, e: Event): State {
    match e
    case Check(now) => Gate(c, s, now).0
    case Success(_) => AfterSuccess(c, s)
    case Failure(excluded, now) => if excluded then s else AfterFailure(c, s, now)
    case Reset(_) => INITIAL
  }

  function Run(c: Config, events: seq<Event>): State {
    if events == [] then INITIAL
    else Step(c, Run(c, events[..|events| - 1]), events[|events| - 1])
  }

  // ---------------------------------------------------------------------------------------
  // The class
  // ---------------------------------------------------------------------------------------

  class CircuitBreaker {
    const config: Config
    var state: CircuitState
    var failureCount: int
    var successCount: int
    var lastFailureTime: Option<real>
    ghost var events: seq<Event>

    ghost function Value(): State
      reads this
    {
      State(state, failureCount, successCount, lastFailureTime)
    }

    /** The fields are what the run so far computes. */
    ghost predicate Valid()
      reads this
    {
      Value() == Run(config, events)
    }

    constructor (config: Config)
      ensures Valid() && this.config == config && events == []
    {
      this.config := config;
      state, failureCount, successCount, lastFailureTime := CLOSED, 0, 0, None;
      events := [];
    }

    method Reset(ghost now: real)
      requires Valid()
      modifies this
      ensures Valid() && events == old(events) + [Event.Reset(now)] && Value() == INITIAL
    {
      Record(Event.Reset(now));
      state, failureCount, successCount, lastFailureTime := CLOSED, 0, 0, None;
    }

    method CheckState(now: real) returns (refused: Option<real>)
      requires Valid()
      modifies this
      ensures Valid() && events == old(events) + [Check(now)]
      ensures (Value(), refused) == Gate(config, old(Value()), now)
    {
      Record(Check(now));
      refused := None;
      if state == OPEN {
        if Truthy(lastFailureTime) {
          var elapsed := now - lastFailureTime.value;
          if elapsed >= config.timeout {
            state := HALF_OPEN;
            successCount := 0;
          } else {
            refused := Some(config.timeout - elapsed);
          }
        }
      }
    }

    method RecordSuccess(ghost now: real)
      requires Valid()
      modifies this
      ensures Valid() && events == old(events) + [Success(now)]
      ensures Value() == AfterSuccess(config, old(Value()))
    {
      Record(Success(now));
      if state == HALF_OPEN {
        successCount := successCount + 1;
        if successCount >= config.successThreshold {
          state := CLOSED;
          failureCount := 0;
        }
      } else if state == CLOSED {
        failureCount := 0;
      }
    }

    method RecordFailure(excluded: bool, now: real)
      requires Valid()
      modifies this
      ensures Valid() && events == old(events) + [Failure(excluded, now)]
      ensures Value() == if excluded then old(Value()) else AfterFailure(config, old(Value()), now)
    {
      Record(Failure(excluded, now));
      if excluded {
        return;
      }
      if state == OPEN {
        return;
      }
      failureCount := failureCount + 1;
      lastFailureTime := Some(now);
      if state == HALF_OPEN {
        state := OPEN;
      } else if state == CLOSED {
        if failureCount >= config.failureThreshold {
          state := OPEN;
        }
      }
    }

    ghost method Record(e: Event)
      modifies this`events
      ensures events == old(events) + [e]
      ensures Run(config, events) == Step(config, Run(config, old(events)), e)
    {
      assert (events + [e])[..|events + [e]| - 1] == events;
      events := events + [e];
    }
  }

  // ---------------------------------------------------------------------------------------
  // What the counters mean
  // ---------------------------------------------------------------------------------------

  /** The step from `before` to `after` starts the failure count afresh. */
  ghost predicate Clears(before: State, e: Event, after: State) {
    || e.Reset?
    || (e.Success? && before.state == CLOSED)
    || (before.state != CLOSED && after.state == CLOSED)
  }

  /** Counted failures since the run last started afresh. */
  ghost function FailuresSinceClear(c: Config, events: seq<Event>): nat {
    if events == [] then 0
    else
      var before, e := events[..|events| - 1], events[|events| - 1];
      if Clears(Run(c, before), e, Run(c, events)) then 0
      else FailuresSinceClear(c, before) + if e.Failure? && !e.excluded then 1 else 0
  }

  /** Successes recorded since the circuit last became half-open. */
  ghost function SuccessesSinceHalfOpen(c: Config, events: seq<Event>): nat {
    if events == [] then 0
    else
      var before, e := events[..|events| - 1], events[|events| - 1];
      if Run(c, before).state != HALF_OPEN then 0
      else SuccessesSinceHalfOpen(c, before) + if e.Success? then 1 else 0
  }

  /** In every reachable state the counters count what they are meant to count, and stay below
      the thresholds that would have moved the circuit on. */
  lemma {:induction false} CountersMeanTheRun(c: Config, events: seq<Event>)
    requires c.failureThreshold >= 1 && c.successThreshold >= 1
    ensures var s := Run(c, events);
            && (s.state == CLOSED ==> s.failureCount == FailuresSinceClear(c, events) < c.failureThreshold)
            && (s.state != CLOSED ==> s.failureCount >= c.failureThreshold && s.lastFailureTime.Some?)
            && (s.state == HALF_OPEN ==>
                  s.successCount == SuccessesSinceHalfOpen(c, events) < c.successThreshold)
    decreases |events|
  {
    if events != [] {
      CountersMeanTheRun(c, events[..|events| - 1]);
    }
  }

  /** When the circuit changes its state, over all runs: it closes with the `successThreshold`-th success
      since half-opening, or by a reset; it opens with any counted failure while half-open and with the
      `failureThreshold`-th since it last started afresh; it becomes half-open by a check at or after
      expiry; and nothing else changes it. */
  lemma {:induction false} StateChangesExactly(c: Config, events: seq<Event>)
    requires c.failureThreshold >= 1 && c.successThreshold >= 1 && events != []
    ensures var before, e := events[..|events| - 1], events[|events| - 1];
            var s, s' := Run(c, before), Run(c, events);
            && (s.state != CLOSED && s'.state == CLOSED <==>
                  s.state != CLOSED && (e.Reset? || (s.state == HALF_OPEN && e.Success?
                    && SuccessesSinceHalfOpen(c, before) + 1 == c.successThreshold)))
            && (s.state != OPEN && s'.state == OPEN <==>
                  e.Failure? && !e.excluded && (s.state == HALF_OPEN ||
                    (s.state == CLOSED && FailuresSinceClear(c, before) + 1 == c.failureThreshold)))
            && (s.state != HALF_OPEN && s'.state == HALF_OPEN <==>
                  s.state == OPEN && e.Check? && s.lastFailureTime != Some(0.0) && e.at >= Expiry(c, s))
  {
    CountersMeanTheRun(c, events[..|events| - 1]);
  }

  /** An excluded exception changes nothing, a counted one outside the open state sets the timer. */
  lemma FailuresSetTimer(c: Config, events: seq<Event>)
    requires events != [] && events[|events| - 1].Failure?
    ensures var before, e := Run(c, events[..|events| - 1]), events[|events| - 1];
            if e.excluded then Run(c, events) == before
            else Run(c, events).lastFailureTime == if before.state == OPEN then before.lastFailureTime else Some(e.at)
  {
  }

  // ---------------------------------------------------------------------------------------
  // Opening and recovering
  // ---------------------------------------------------------------------------------------

  ghost predicate Timed(events: seq<Event>) {
    && (forall i :: 0 <= i < |events| ==> events[i].at > 0.0)
    && (forall i, j :: 0 <= i < j < |events| ==> events[i].at <= events[j].at)
  }

  ghost predicate NoReset(events: seq<Event>) {
    forall i :: 0 <= i < |events| ==> !events[i].Reset?
  }

  /** When the circuit opened, in order. */
  ghost function Openings(c: Config, events: seq<Event>): seq<real> {
    if events == [] then []
    else
      var before, e := events[..|events| - 1], events[|events| - 1];
      Openings(c, before)
      + if Run(c, before).state != OPEN && Run(c, events).state == OPEN then [e.at] else []
  }

  /** While OPEN the recovery timer shows the last opening; once it is not OPEN any more, that
      opening is a full timeout ago. */
  lemma {:induction false} TimerShowsOpening(c: Config, events: seq<Event>)
    requires Timed(events) && NoReset(events)
    ensures var s, o := Run(c, events), Openings(c, events);
            && (s.state == OPEN ==> o != [] && s.lastFailureTime == Some(o[|o| - 1]) && Truthy(s.lastFailureTime))
            && (o != [] ==> events != [] && o[|o| - 1] <= events[|events| - 1].at)
            && (s.state != OPEN && o != [] ==> events[|events| - 1].at - o[|o| - 1] >= c.timeout)
    decreases |events|
  {
    if events != [] {
      TimerShowsOpening(c, events[..|events| - 1]);
    }
  }

  /** Successive openings are at least the timeout apart, whatever calls were in flight. */
  lemma {:induction false} OpeningsAreSpaced(c: Config, events: seq<Event>)
    requires Timed(events) && NoReset(events)
    ensures var o := Openings(c, events);
            forall i :: 0 < i < |o| ==> o[i] - o[i - 1] >= c.timeout
    decreases |events|
  {
    if events != [] {
      OpeningsAreSpaced(c, events[..|events| - 1]);
      TimerShowsOpening(c, events[..|events| - 1]);
    }
  }

  /** `n` times `x`, as a sum. */
  function Times(n: nat, x: real): real {
    if n == 0 then 0.0 else Times(n - 1, x) + x
  }

  lemma {:induction false} TimesIsProduct(n: nat, x: real)
    ensures Times(n, x) == n as real * x
  {
    if n > 0 {
      TimesIsProduct(n - 1, x);
      assert n as real == (n - 1) as real + 1.0;
      assert ((n - 1) as real + 1.0) * x == (n - 1) as real * x + x;
    }
  }

  lemma {:induction false} OpeningsTakeTime(c: Config, events: seq<Event>, n: nat)
    requires Timed(events) && NoReset(events) && n < |Openings(c, events)|
    ensures Openings(c, events)[n] - Openings(c, events)[0] >= Times(n, c.timeout)
    decreases n
  {
    OpeningsAreSpaced(c, events);
    if n > 0 {
      OpeningsTakeTime(c, events, n - 1);
    }
  }

  /** So the number of openings is bounded by the time between the first and the last. */
  lemma OpeningsAreRare(c: Config, events: seq<Event>, n: nat)
    requires Timed(events) && NoReset(events) && n < |Openings(c, events)|
    ensures var o := Openings(c, events);
            o[n] - o[0] >= n as real * c.timeout
  {
    OpeningsTakeTime(c, events, n);
    TimesIsProduct(n, c.timeout);
  }

  /** When an open circuit may be probed again. */
  ghost function Expiry(c: Config, s: State): real {
    if s.lastFailureTime.Some? then s.lastFailureTime.value + c.timeout else 0.0
  }

  ghost predicate ChecksBefore(events: seq<Event>, t: real) {
    forall i :: 0 <= i < |events| && events[i].Check? ==> events[i].at < t
  }

  /** Nothing but a check at or after expiry moves an open circuit: late successes and failures
      leave every field alone, and so does every earlier check. */
  lemma {:induction false} OpenIsFrozen(c: Config, events: seq<Event>, late: seq<Event>)
    requires Timed(events) && NoReset(events) && NoReset(late)
    requires Run(c, events).state == OPEN && ChecksBefore(late, Expiry(c, Run(c, events)))
    ensures Run(c, events + late) == Run(c, events)
    decreases |late|
  {
    if late == [] {
      assert events + late == events;
    } else {
      var before := late[..|late| - 1];
      OpenIsFrozen(c, events, before);
      TimerShowsOpening(c, events);
      assert (events + late)[..|events + late| - 1] == events + before;
      assert late[|late| - 1].Check? ==> late[|late| - 1].at < Expiry(c, Run(c, events));
    }
  }

  lemma GateOfOpen(c: Config, s: State, now: real)
    requires s.state == OPEN && Truthy(s.lastFailureTime)
    ensures var (s', refused) := Gate(c, s, now);
            if now < Expiry(c, s) then refused == Some(Expiry(c, s) - now) && s' == s
            else refused == None && s'.state == HALF_OPEN && s'.successCount == 0
  {
  }

  /** After opening, a check is refused, with the time still to wait, if it comes before expiry;
      the first one at or after expiry is let through and makes the circuit half-open. */
  lemma OpenGate(c: Config, events: seq<Event>, late: seq<Event>, now: real)
    requires Timed(events) && NoReset(events) && NoReset(late)
    requires Run(c, events).state == OPEN && ChecksBefore(late, Expiry(c, Run(c, events)))
    ensures var expiry := Expiry(c, Run(c, events));
            var (s, refused) := Gate(c, Run(c, events + late), now);
            if now < expiry then refused == Some(expiry - now) && s == Run(c, events)
            else refused == None && s.state == HALF_OPEN && s.successCount == 0
  {
    var s := Run(c, events);
    OpenIsFrozen(c, events, late);
    OpenTimerIsSet(c, events);
    GateOfOpen(c, s, now);
  }

  lemma OpenTimerIsSet(c: Config, events: seq<Event>)
    requires Timed(events) && NoReset(events)
    requires Run(c, events).state == OPEN
    ensures Truthy(Run(c, events).lastFailureTime)
  {
    TimerShowsOpening(c, events);
  }

  // ---------------------------------------------------------------------------------------
  // The clock must not read zero
  // ---------------------------------------------------------------------------------------

  /** An open circuit refuses a check before expiry if and only if the failure that opened it did
      not happen at clock reading zero: the code tests the timestamp's truth value. */
  lemma OpenRefusesIffTimerIsNonZero(c: Config, s: State, now: real)
    requires s.state == OPEN && s.lastFailureTime.Some? && now - s.lastFailureTime.value < c.timeout
    ensures Gate(c, s, now).1.Some? <==> s.lastFailureTime.value != 0.0
  {
  }

  /** It recovers, when time has passed, under the same condition. */
  lemma OpenRecoversIffTimerIsNonZero(c: Config, s: State)
    requires s.state == OPEN && s.lastFailureTime.Some?
    ensures (exists now :: Gate(c, s, now).0.state == HALF_OPEN) <==> s.lastFailureTime.value != 0.0
  {
    if s.lastFailureTime.value != 0.0 {
      var now := s.lastFailureTime.value + c.timeout;
      assert Gate(c, s, now).0.state == HALF_OPEN;
    }
  }

  /** However it came to be open, a circuit whose timer shows zero keeps every field until it is reset,
      and refuses nobody. */
  lemma {:induction false} OpenedAtZeroStaysOpen(c: Config, events: seq<Event>, late: seq<Event>)
    requires NoReset(late)
    requires Run(c, events).state == OPEN && Run(c, events).lastFailureTime == Some(0.0)
    ensures Run(c, events + late) == Run(c, events)
    ensures forall now :: Gate(c, Run(c, events + late), now) == (Run(c, events), None)
    decreases |late|
  {
    if late == [] {
      assert events + late == events;
    } else {
      var before := late[..|late| - 1];
      OpenedAtZeroStaysOpen(c, events, before);
      assert (events + late)[..|events + late| - 1] == events + before;
      assert Gate(c, Run(c, events), late[|late| - 1].at) == (Run(c, events), None);
    }
  }

  /** Which failures open it so: one at clock zero, when the threshold is reached or the circuit was
      half-open. */
  lemma OpensAtZero(c: Config, s: State, now: real)
    requires s.state != OPEN
    ensures var s' := AfterFailure(c, s, now);
            s'.state == OPEN && s'.lastFailureTime == Some(0.0)
            <==> now == 0.0 && (s.state == HALF_OPEN || s.failureCount + 1 >= c.failureThreshold)
  {
  }
}
