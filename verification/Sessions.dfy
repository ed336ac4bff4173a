/** Gateway sessions of backend/app/api/mcp_gateway.py: a table swept by three different operations.
    Times are wall-clock seconds that do not go back.
 */
module Sessions {
  import opened Common

  const EXPIRY: real := 3600.0

  type Table = map<string, real>

  predicate Expired(last: real, now: real) {
    now - last > EXPIRY
  }

  function Unexpired(t: Table, now: real): Table {
    map id | id in t && !Expired(t[id], now) :: t[id]
  }

  // ---------------------------------------------------------------------------------------
  // Operations
  // ---------------------------------------------------------------------------------------

  /** `checked` and `touched` are the two clock readings of a validation. */
  function Validate(t: Table, id: Option<string>, checked: real, touched: real): (Table, bool) {
    if id.None? || id.value == "" || id.value !in t then (t, false)
    else if Expired(t[id.value], checked) then (t - {id.value}, false)
    else (t[id.value := touched], true)
  }

  function Create(t: Table, id: string, created: real, swept: real): Table {
    Unexpired(t[id := created], swept)
  }

  function Delete(t: Table, id: string): (Table, bool) {
    if id in t then (t - {id}, true) else (t, false)
  }

  function ExpiredIds(t: Table, now: real): set<string> {
    set id | id in t && Expired(t[id], now)
  }

  lemma DropExpired(t: Table, id: string, now: real)
    requires id in t && Expired(t[id], now)
    ensures Unexpired(t - {id}, now) == Unexpired(t, now) && |t - {id}| == |t| - 1
  {
    assert (t - {id}).Keys == t.Keys - {id};
  }

  class SessionTable {
    var active: Table

    constructor ()
      ensures active == map[]
    {
      active := map[];
    }

    method RemoveExpired(now: real) returns (removed: nat)
      modifies this
      ensures active == Unexpired(old(active), now) && removed == |old(active)| - |active|
    {
      var expired := ExpiredIds(active, now);
      var todo := expired;
      while todo != {}
        invariant forall id :: id in active && Expired(active[id], now) <==> id in todo
        invariant Unexpired(active, now) == Unexpired(old(active), now)
        invariant |active| + |expired| == |old(active)| + |todo|
        decreases |todo|
      {
        var id :| id in todo;
        DropExpired(active, id, now);
        todo := todo - {id};
        active := active - {id};
      }
      removed := |expired|;
      assert Unexpired(active, now) == active;
    }

    /** The clock was read before the lock was taken, so `now` may be in the past. */
    method CleanupExpiredSessions(now: real) returns (removed: nat)
      modifies this
      ensures active == Unexpired(old(active), now) && removed == |old(active)| - |active|
    {
      removed := RemoveExpired(now);
    }

    method ValidateSession(id: Option<string>, checked: real, touched: real) returns (ok: bool)
      modifies this
      ensures (active, ok) == Validate(old(active), id, checked, touched)
    {
      if id.None? || id.value == "" {
        return false;
      }
      if id.value !in active {
        return false;
      }
      if checked - active[id.value] > EXPIRY {
        active := active - {id.value};
        return false;
      }
      active := active[id.value := touched];
      return true;
    }

    method CreateSession(id: string, created: real, swept: real)
      modifies this
      ensures active == Create(old(active), id, created, swept)
    {
      active := active[id := created];
      var _ := RemoveExpired(swept);
    }

    method DeleteSession(id: string) returns (existed: bool)
      modifies this
      ensures (active, existed) == Delete(old(active), id)
    {
      if id in active {
        active := active - {id};
        return true;
      }
      return false;
    }
  }

  // ---------------------------------------------------------------------------------------
  // Runs
  // ---------------------------------------------------------------------------------------

  /** `at` is when the operation holds the lock last. */
  datatype Event =
    | Created(id: string, created: real, at: real)
    | Validated(id: string, checked: real, at: real)
    | Deleted(id: string, at: real)
    | Swept(now: real, at: real)

  function Step(t: Table, e: Event): Table {
    match e
    case Created(id, created, at) => Create(t, id, created, at)
    case Validated(id, checked, at) => Validate(t, Some(id), checked, at).0
    case Deleted(id, _) => Delete(t, id).0
    case Swept(now, _) => Unexpired(t, now)
  }

  function Run(events: seq<Event>): Table {
    if events == [] then map[] else Step(Run(events[..|events| - 1]), events[|events| - 1])
  }

  ghost predicate Clocked(e: Event) {
    match e
    case Created(_, created, at) => created <= at
    case Validated(id, checked, at) => checked <= at && id != ""
    case Deleted(_, _) => true
    case Swept(now, at) => now <= at
  }

  /** The clock does not go back.  Sweeps may use an old reading, the others do not. */
  ghost predicate Legal(events: seq<Event>) {
    && (forall i :: 0 <= i < |events| ==> Clocked(events[i]))
    && (forall i, j :: 0 <= i < j < |events| ==> events[i].at <= events[j].at)
    && (forall i, j :: 0 <= i < j < |events| && events[j].Validated? ==> events[i].at <= events[j].checked)
  }

  // ---------------------------------------------------------------------------------------
  // What a session id means, without any table
  // ---------------------------------------------------------------------------------------

  /** When `id` was last created or successfully validated, if it was not deleted since.  A
      validation succeeds if that was at most an hour before it.  Sweeps do not occur here. */
  function LastTouch(events: seq<Event>, id: string): Option<real> {
    if events == [] then None
    else
      var last := LastTouch(events[..|events| - 1], id);
      match events[|events| - 1]
      case Created(i, created, _) => if i == id then Some(created) else last
      case Validated(i, checked, at) =>
        if i == id && last.Some? && !Expired(last.value, checked) then Some(at) else last
      case Deleted(i, _) => if i == id then None else last
      case Swept(_, _) => last
  }

  /** The table agrees with the history of `id`, except that it may have forgotten a session that
      is past its hour. */
  ghost predicate Agrees(t: Table, last: Option<real>, id: string, now: real) {
    && (id in t ==> last == Some(t[id]))
    && (id !in t && last.Some? ==> Expired(last.value, now))
  }

  lemma StepAgrees(t: Table, last: Option<real>, e: Event, id: string, last': Option<real>)
    requires Clocked(e) && Agrees(t, last, id, if e.Validated? then e.checked else e.at)
    requires last' == match e
                      case Created(i, created, _) => if i == id then Some(created) else last
                      case Validated(i, checked, at) =>
                        if i == id && last.Some? && !Expired(last.value, checked) then Some(at) else last
                      case Deleted(i, _) => if i == id then None else last
                      case Swept(_, _) => last
    ensures Agrees(Step(t, e), last', id, e.at)
  {
  }

  lemma {:induction false} RunAgrees(events: seq<Event>, id: string, now: real)
    requires Legal(events) && (events != [] ==> events[|events| - 1].at <= now)
    ensures Agrees(Run(events), LastTouch(events, id), id, now)
    decreases |events|
  {
    if events != [] {
      var before, e := events[..|events| - 1], events[|events| - 1];
      RunAgrees(before, id, if e.Validated? then e.checked else e.at);
      StepAgrees(Run(before), LastTouch(before, id), e, id, LastTouch(events, id));
    }
  }

  /** Over any run, a session validates if and only if it was created, not deleted since, and last
      created or successfully validated at most 3600 seconds ago: no sweep, eager or lazy, can be
      observed through validation. */
  lemma ValidatesIffTouchedRecently(events: seq<Event>, id: string, checked: real, touched: real)
    requires Legal(events) && id != "" && (events != [] ==> events[|events| - 1].at <= checked)
    ensures Validate(Run(events), Some(id), checked, touched).1
       <==> LastTouch(events, id).Some? && checked - LastTouch(events, id).value <= 3600.0
  {
    RunAgrees(events, id, checked);
  }

  /** Without an id, or with an empty one, nothing validates and nothing changes. */
  lemma NoIdNeverValidates(t: Table, id: Option<string>, checked: real, touched: real)
    ensures id.None? || id.value == "" ==> Validate(t, id, checked, touched) == (t, false)
  {
  }

  function WithoutSweeps(events: seq<Event>): seq<Event> {
    if events == [] then []
    else
      var before, e := WithoutSweeps(events[..|events| - 1]), events[|events| - 1];
      if e.Swept? then before else before + [e]
  }

  lemma LegalSnoc(events: seq<Event>, e: Event)
    requires Legal(events) && Clocked(e)
    requires forall x :: x in events ==> x.at <= e.at && (e.Validated? ==> x.at <= e.checked)
    ensures Legal(events + [e])
  {
    var all := events + [e];
    forall i, j | 0 <= i < j < |all|
      ensures all[i].at <= all[j].at && (all[j].Validated? ==> all[i].at <= all[j].checked)
    {
      assert all[i] in events;
    }
  }

  lemma LegalEnd(events: seq<Event>)
    requires Legal(events) && events != []
    ensures var before, e := events[..|events| - 1], events[|events| - 1];
            && Legal(before) && Clocked(e)
            && forall x :: x in before ==> x.at <= e.at && (e.Validated? ==> x.at <= e.checked)
  {
  }

  lemma {:induction false} LegalWithoutSweeps(events: seq<Event>)
    requires Legal(events)
    ensures Legal(WithoutSweeps(events)) && (forall e :: e in WithoutSweeps(events) ==> e in events)
    decreases |events|
  {
    if events != [] {
      LegalEnd(events);
      LegalWithoutSweeps(events[..|events| - 1]);
      if !events[|events| - 1].Swept? {
        LegalSnoc(WithoutSweeps(events[..|events| - 1]), events[|events| - 1]);
      }
    }
  }

  lemma {:induction false} TouchWithoutSweeps(events: seq<Event>, id: string)
    ensures LastTouch(WithoutSweeps(events), id) == LastTouch(events, id)
    decreases |events|
  {
    if events != [] {
      var rest := WithoutSweeps(events[..|events| - 1]);
      TouchWithoutSweeps(events[..|events| - 1], id);
      assert (rest + [events[|events| - 1]])[..|rest|] == rest;
    }
  }

  /** Leaving all periodic sweeps out of a run changes no validation. */
  lemma {:induction false} SweepsAreUnobservable(events: seq<Event>, id: string, checked: real, touched: real)
    requires Legal(events) && id != "" && (events != [] ==> events[|events| - 1].at <= checked)
    ensures Validate(Run(events), Some(id), checked, touched).1
         == Validate(Run(WithoutSweeps(events)), Some(id), checked, touched).1
  {
    var rest := WithoutSweeps(events);
    LegalWithoutSweeps(events);
    TouchWithoutSweeps(events, id);
    if rest != [] {
      assert rest[|rest| - 1] in events;
    }
    ValidatesIffTouchedRecently(events, id, checked, touched);
    ValidatesIffTouchedRecently(rest, id, checked, touched);
  }

  // ---------------------------------------------------------------------------------------
  // Deletion does see sweeps
  // ---------------------------------------------------------------------------------------

  /** The clock reading with which an event looks whether `id` has expired, if it does. */
  function Looks(e: Event, id: string): Option<real> {
    match e
    case Created(_, _, at) => Some(at)
    case Validated(i, checked, _) => if i == id then Some(checked) else None
    case Deleted(_, _) => None
    case Swept(now, _) => Some(now)
  }

  /** Since `id` was last created, something has noticed that its hour is over. */
  function Noticed(events: seq<Event>, id: string): bool {
    if events == [] then false
    else
      var before, e := events[..|events| - 1], events[|events| - 1];
      var last, now := LastTouch(events, id), Looks(e, id);
      || (last.Some? && now.Some? && Expired(last.value, now.value))
      || (Noticed(before, id) && !(e.Created? && e.id == id))
  }

  lemma {:induction false} NoticedStaysExpired(events: seq<Event>, id: string)
    requires Legal(events) && Noticed(events, id)
    ensures LastTouch(events, id).Some? ==> Expired(LastTouch(events, id).value, events[|events| - 1].at)
    decreases |events|
  {
    var before := events[..|events| - 1];
    LegalEnd(events);
    if Noticed(before, id) {
      NoticedStaysExpired(before, id);
    }
  }

  /** What a deletion answers, exactly: a session that was touched and not deleted is reported as
      existing if and only if nothing has noticed yet that its hour is over. */
  lemma {:induction false} DeleteExact(events: seq<Event>, id: string)
    requires Legal(events)
    ensures Delete(Run(events), id).1 <==> LastTouch(events, id).Some? && !Noticed(events, id)
    decreases |events|
  {
    if events != [] {
      var before, e := events[..|events| - 1], events[|events| - 1];
      LegalEnd(events);
      DeleteExact(before, id);
      RunAgrees(before, id, if e.Validated? then e.checked else e.at);
      if Noticed(before, id) {
        NoticedStaysExpired(before, id);
      }
    }
  }

  /** So the answer is right, that is independent of all sweeps, for every session within its hour;
      with a sweep just before it, it is right for these alone. */
  lemma DeleteAnswers(events: seq<Event>, id: string, now: real)
    requires Legal(events) && (events != [] ==> events[|events| - 1].at <= now)
    ensures var last, swept := LastTouch(events, id), Run(events + [Swept(now, now)]);
            && (!(last.Some? && Expired(last.value, now)) ==> (Delete(Run(events), id).1 <==> last.Some?))
            && ((Delete(swept, id).1 <==> last.Some?) <==> !(last.Some? && Expired(last.value, now)))
  {
    var after := events + [Swept(now, now)];
    assert after[..|events|] == events;
    RunAgrees(events, id, now);
    assert Run(after) == Unexpired(Run(events), now);
  }

  /** For every session past its hour the answer without that sweep may differ: if nothing has noticed
      so far, deletion finds it. */
  lemma DeleteSeesSweep(events: seq<Event>, id: string, now: real)
    requires Legal(events) && (events != [] ==> events[|events| - 1].at <= now)
    ensures Delete(Run(events), id).1 != Delete(Run(events + [Swept(now, now)]), id).1
       <==> LastTouch(events, id).Some? && Expired(LastTouch(events, id).value, now) && !Noticed(events, id)
  {
    DeleteAnswers(events, id, now);
    DeleteExact(events, id);
  }

  /** A run in which it does. */
  lemma {:induction false} ForgottenSession(id: string, now: real)
    requires now > 3600.0
    ensures var events := [Created(id, 0.0, 0.0)];
            && Legal(events) && LastTouch(events, id) == Some(0.0) && !Noticed(events, id)
            && Delete(Run(events), id).1 && !Delete(Run(events + [Swept(now, now)]), id).1
  {
    var events := [Created(id, 0.0, 0.0)];
    assert events[..0] == [];
    assert LastTouch(events, id) == Some(0.0) && Looks(events[0], id) == Some(0.0);
    DeleteExact(events, id);
    DeleteSeesSweep(events, id, now);
  }
}
