/** The email allowlist cache of backend/app/services/email_policy_cache.py while the database comes
    and goes.

    A load suspends while the database answers, so loads, checks and invalidations interleave:
    `Loaded` is the moment a load returns, with a result the database produced some time before.
    Checks change nothing but by loading, so they are judged after a run and are no events.
 */
module EmailPolicy {
  import opened Common

  const TTL: real := 30.0

  // ---------------------------------------------------------------------------------------
  // What is stored, and what it means
  // ---------------------------------------------------------------------------------------

  datatype EmailList = Absent | Unparsable | Parsed(emails: seq<string>)

  /** The active configuration row; an empty string stands for a missing value. */
  datatype Row = NoRow | Row(policyType: string, emails: EmailList, domain: string)

  /** The policy in a row: whom it admits. */
  predicate Admits(row: Row, email: string) {
    match row
    case NoRow => true
    case Row(policyType, emails, domain) =>
      if policyType == "" || policyType == "everyone" then true
      else if policyType == "emails" then
        email != "" && emails.Parsed? && exists e :: e in emails.emails && Lower(e) == Lower(email)
      else if policyType == "email_domain" then
        email != "" && domain != "" && EndsWith(Lower(email), "@" + Lower(domain))
      else false
  }

  predicate Restrictive(row: Row) {
    row.Row? && row.policyType != ""
  }

  // ---------------------------------------------------------------------------------------
  // The cache
  // ---------------------------------------------------------------------------------------

  datatype Result = DatabaseError | Fetched(row: Row)

  datatype State = State(
    policyType: Option<string>,
    allowedEmails: Option<set<string>>,
    allowedDomain: Option<string>,
    lastLoaded: real,
    dbError: bool)

  const INITIAL := State(None, None, None, 0.0, false)

  datatype Verdict = Allowed | Unavailable | EmailRequired | NotListed | WrongDomain | UnknownType

  function LowerAll(emails: seq<string>): set<string> {
    set e | e in emails :: Lower(e)
  }

  function AfterLoad(s: State, r: Result, now: real): State {
    match r
    case DatabaseError => if s.policyType.Some? then s else s.(dbError := true)
    case Fetched(NoRow) => State(None, None, None, now, false)
    case Fetched(Row(policyType, emails, domain)) =>
      if policyType == "" then State(None, None, None, now, false)
      else
        State(Some(policyType),
              if policyType == "emails" && !emails.Absent?
              then Some(if emails.Parsed? then LowerAll(emails.emails) else {})
              else None,
              if policyType == "email_domain" && domain != "" then Some(Lower(domain)) else None,
              now, false)
  }

  predicate Stale(s: State, now: real) {
    now - s.lastLoaded >= TTL
  }

  function Judge(s: State, email: string): Verdict {
    if s.policyType == None && !s.dbError then Allowed
    else if s.dbError then Unavailable
    else if s.policyType == Some("everyone") then Allowed
    else if email == "" then EmailRequired
    else if s.policyType == Some("emails") then
      if s.allowedEmails.Some? && Lower(email) in s.allowedEmails.value then Allowed else NotListed
    else if s.policyType == Some("email_domain") then
      if s.allowedDomain.Some? && s.allowedDomain.value != ""
         && EndsWith(Lower(email), "@" + s.allowedDomain.value) then Allowed else WrongDomain
    else UnknownType
  }

  class EmailPolicyCache {
    var policyType: Option<string>
    var allowedEmails: Option<set<string>>
    var allowedDomain: Option<string>
    var lastLoaded: real
    var dbError: bool

    ghost function Value(): State
      reads this
    {
      State(policyType, allowedEmails, allowedDomain, lastLoaded, dbError)
    }

    constructor ()
      ensures Value() == INITIAL
    {
      policyType, allowedEmails, allowedDomain, lastLoaded, dbError := None, None, None, 0.0, false;
    }

    /** `load` once the database has answered. */
    method FinishLoad(result: Result, now: real)
      modifies this
      ensures Value() == AfterLoad(old(Value()), result, now)
    {
      if result.DatabaseError? {
        if policyType.None? {
          dbError := true;
        }
        return;
      }
      dbError := false;
      if result.row.NoRow? || result.row.policyType == "" {
        policyType, allowedEmails, allowedDomain := None, None, None;
      } else {
        policyType := Some(result.row.policyType);
        if policyType.value == "emails" && !result.row.emails.Absent? {
          match result.row.emails {
            case Parsed(raw) => allowedEmails := Some(set e | e in raw :: Lower(e));
            case Unparsable => allowedEmails := Some({});
          }
        } else {
          allowedEmails := None;
        }
        if policyType.value == "email_domain" && result.row.domain != "" {
          allowedDomain := Some(Lower(result.row.domain));
        } else {
          allowedDomain := None;
        }
      }
      lastLoaded := now;
    }

    method NeedsRefresh(now: real) returns (stale: bool)
      ensures stale == Stale(Value(), now)
    {
      stale := now - lastLoaded >= TTL;
    }

    method Invalidate()
      modifies this
      ensures Value() == INITIAL
    {
      policyType, allowedEmails, allowedDomain := None, None, None;
      dbError := false;
      lastLoaded := 0.0;
    }

    /** `check_email` up to the load it may need: the verdict, or nothing yet. */
    method BeginCheck(email: Option<string>, now: real) returns (v: Option<Verdict>)
      ensures v == if Stale(Value(), now) then None
                   else Some(Judge(Value(), if email.Some? then email.value else ""))
    {
      var stale := NeedsRefresh(now);
      if stale {
        return None;
      }
      var verdict := Decide(email);
      return Some(verdict);
    }

    /** `check_email` after `_refresh_if_stale`. */
    method Decide(email: Option<string>) returns (v: Verdict)
      ensures v == Judge(Value(), if email.Some? then email.value else "")
    {
      if policyType == None && !dbError {
        return Allowed;
      }
      if dbError {
        return Unavailable;
      }
      if policyType.value == "everyone" {
        return Allowed;
      }
      if email.None? || email.value == "" {
        return EmailRequired;
      }
      var normalised := Lower(email.value);
      if policyType.value == "emails" {
        if allowedEmails.Some? && normalised in allowedEmails.value {
          return Allowed;
        }
        return NotListed;
      }
      if policyType.value == "email_domain" {
        if allowedDomain.Some? && allowedDomain.value != "" && EndsWith(normalised, "@" + allowedDomain.value) {
          return Allowed;
        }
        return WrongDomain;
      }
      return UnknownType;
    }
  }

  // ---------------------------------------------------------------------------------------
  // Runs
  // ---------------------------------------------------------------------------------------

  /** `read` is when the database produced what arrives, and is stored, at `at`. */
  datatype Event = Loaded(result: Result, read: real, at: real) | Invalidated(at: real)

  function Run(events: seq<Event>): State {
    if events == [] then INITIAL
    else
      var s := Run(events[..|events| - 1]);
      match events[|events| - 1]
      case Loaded(result, _, at) => AfterLoad(s, result, at)
      case Invalidated(_) => INITIAL
  }

  datatype Success = Success(row: Row, read: real, at: real)

  /** The latest successful load since the last invalidation. */
  function LastSuccess(events: seq<Event>): Option<Success> {
    if events == [] then None
    else
      match events[|events| - 1]
      case Loaded(Fetched(row), read, at) => Some(Success(row, read, at))
      case Loaded(DatabaseError, _, _) => LastSuccess(events[..|events| - 1])
      case Invalidated(_) => None
  }

  /** Some load has failed since the latest successful load or invalidation. */
  function Failing(events: seq<Event>): bool {
    events != [] &&
    match events[|events| - 1]
    case Loaded(result, _, _) => result.DatabaseError?
    case Invalidated(_) => false
  }

  /** The cache holds the latest successful load; only a cache without policy minds failures. */
  ghost predicate Holds(s: State, last: Option<Success>, failing: bool) {
    && s.dbError == (failing && s.policyType == None)
    && s.(dbError := false) == match last
                               case None => INITIAL
                               case Some(Success(row, _, at)) => AfterLoad(INITIAL, Fetched(row), at)
  }

  lemma {:induction false} RunHolds(events: seq<Event>)
    ensures Holds(Run(events), LastSuccess(events), Failing(events))
    decreases |events|
  {
    if events != [] {
      RunHolds(events[..|events| - 1]);
    }
  }

  /** A check loads if and only if the latest successful load since the last invalidation is 30
      seconds old or, without one, the clock has reached 30: failed loads postpone nothing. */
  lemma {:induction false} LoadsIffNoRecentSuccess(events: seq<Event>, now: real)
    ensures Stale(Run(events), now) <==>
            match LastSuccess(events)
            case None => now >= 30.0
            case Some(last) => now - last.at >= 30.0
  {
    RunHolds(events);
  }

  /** A stored row is judged as its policy says. */
  lemma StoredRowJudges(s: State, row: Row, at: real, email: string)
    requires s == AfterLoad(INITIAL, Fetched(row), at)
    ensures Judge(s, email) == Allowed <==> Admits(row, email)
  {
    if row.Row? && row.policyType == "emails" && row.emails.Parsed? {
      assert Lower(email) in LowerAll(row.emails.emails)
        <==> exists e :: e in row.emails.emails && Lower(e) == Lower(email);
    }
    if row.Row? && row.policyType == "email_domain" {
      assert |Lower(row.domain)| == |row.domain|;
    }
  }

  /** Whom the cache allows after any run: whom the latest successful load since the last
      invalidation admits, unless that load found no policy and a later one failed; without such a
      load, everybody or, once a load has failed, nobody. */
  lemma {:induction false} RunJudges(events: seq<Event>, email: string)
    ensures Judge(Run(events), email) == Allowed <==>
            match LastSuccess(events)
            case None => !Failing(events)
            case Some(last) => Admits(last.row, email) && (Restrictive(last.row) || !Failing(events))
  {
    RunHolds(events);
    if LastSuccess(events).Some? {
      var last := LastSuccess(events).value;
      StoredRowJudges(Run(events).(dbError := false), last.row, last.at, email);
    }
  }

  /** The reason a check without load gives after any run: failed loads while nothing is held come first;
      then a missing email; then what the policy's type misses. */
  lemma RunReasons(events: seq<Event>, email: string)
    ensures var v, last := Judge(Run(events), email), LastSuccess(events);
            var held := last.Some? && Restrictive(last.value.row);
            && (v == Unavailable <==> !held && Failing(events))
            && (v == EmailRequired <==> held && last.value.row.policyType != "everyone" && email == "")
            && (v == NotListed <==> held && last.value.row.policyType == "emails"
                                    && email != "" && !Admits(last.value.row, email))
            && (v == WrongDomain <==> held && last.value.row.policyType == "email_domain"
                                      && email != "" && !Admits(last.value.row, email))
            && (v == UnknownType <==> held && email != ""
                                      && last.value.row.policyType !in {"everyone", "emails", "email_domain"})
  {
    RunHolds(events);
    RunJudges(events, email);
    var s, last := Run(events), LastSuccess(events);
    if last.Some? {
      HeldType(s.(dbError := false), last.value);
    }
  }

  lemma HeldType(s: State, last: Success)
    requires s == AfterLoad(INITIAL, Fetched(last.row), last.at)
    ensures s.policyType == if Restrictive(last.row) then Some(last.row.policyType) else None
  {
  }

  /** A check that finds the cache fresh, at any clock reading.  It allows somebody whom no successful
      load less than 30 seconds old admits if and only if there has been no successful load since the
      last invalidation, no failed one either, and the clock has not reached 30. */
  lemma {:induction false} FreshCheckNeverWidens(events: seq<Event>, email: string, now: real)
    requires !Stale(Run(events), now)
    ensures var last := LastSuccess(events);
            var allowed := Judge(Run(events), email) == Allowed;
            && (last.Some? ==> now - last.value.at < 30.0)
            && (last.Some? && Restrictive(last.value.row) ==> (allowed <==> Admits(last.value.row, email)))
            && (allowed && !(last.Some? && Admits(last.value.row, email))
                <==> last == None && now < 30.0 && !Failing(events))
  {
    LoadsIffNoRecentSuccess(events, now);
    RunJudges(events, email);
  }

  /** A check that had to load decides by what it loaded; if that failed, by the latest successful
      load since the last invalidation, and without one it denies everybody. */
  lemma {:induction false} RefreshedCheckNeverWidens(
      events: seq<Event>, result: Result, email: string, read: real, at: real)
    ensures var after := events + [Loaded(result, read, at)];
            var allowed := Judge(Run(after), email) == Allowed;
            match result
            case Fetched(row) => allowed <==> Admits(row, email)
            case DatabaseError =>
              match LastSuccess(events)
              case None => !allowed
              case Some(last) => allowed <==> Restrictive(last.row) && Admits(last.row, email)
  {
    var after := events + [Loaded(result, read, at)];
    assert after[..|events|] == events;
    RunJudges(after, email);
  }

  // ---------------------------------------------------------------------------------------
  // Revocation
  // ---------------------------------------------------------------------------------------

  /** The active configuration row at each time. */
  type Table = real -> Row

  /** Every row that arrives was in the database at most `delay` before. */
  ghost predicate Honest(table: Table, delay: real, e: Event) {
    e.Loaded? && e.result.Fetched? ==> e.result.row == table(e.read) && e.read <= e.at <= e.read + delay
  }

  ghost predicate Legal(table: Table, delay: real, events: seq<Event>) {
    && (forall i :: 0 <= i < |events| ==> Honest(table, delay, events[i]))
    && (forall i, j :: 0 <= i < j < |events| ==> events[i].at <= events[j].at)
  }

  lemma {:induction false} SuccessIsHonest(table: Table, delay: real, events: seq<Event>)
    requires Legal(table, delay, events) && LastSuccess(events).Some?
    ensures var last := LastSuccess(events).value;
            last.row == table(last.read) && last.at <= last.read + delay
    decreases |events|
  {
    assert Honest(table, delay, events[|events| - 1]);
    if events[|events| - 1].result.DatabaseError? {
      SuccessIsHonest(table, delay, events[..|events| - 1]);
    }
  }

  /** An email that no policy admits any more from `gone` on is refused by every check that finds a
      loaded cache fresh once the longest load and the time to live have passed; the invalidation
      that comes with the change is not needed for this. */
  lemma {:induction false} RevokedIsRefused(
      table: Table, delay: real, events: seq<Event>, email: string, gone: real, now: real)
    requires Legal(table, delay, events) && (forall t :: t >= gone ==> !Admits(table(t), email))
    requires !Stale(Run(events), now) && (LastSuccess(events).Some? || now >= 30.0)
    requires now >= gone + delay + 30.0
    ensures Judge(Run(events), email) != Allowed
  {
    LoadsIffNoRecentSuccess(events, now);
    SuccessIsHonest(table, delay, events);
    RunJudges(events, email);
  }

  /** Nor does the invalidation make it faster: at any earlier time the email may still be allowed,
      because a load that read the former row stores it after the invalidation. */
  lemma InvalidationMayBeOvertaken(email: string, gone: real, delay: real, now: real)
    returns (table: Table, events: seq<Event>)
    requires email != "" && delay > 0.0 && gone <= now < gone + delay + 30.0
    ensures Legal(table, delay, events) && (forall t :: t >= gone ==> !Admits(table(t), email))
    ensures |events| == 2 && events[0] == Invalidated(gone) && events[1].at <= now
    ensures !Stale(Run(events), now) && Judge(Run(events), email) == Allowed
  {
    var before, after := Row("emails", Parsed([email]), ""), Row("emails", Parsed([]), "");
    table := t => if t >= gone then after else before;
    // Close enough to the revocation to be still fresh now, and in flight when it happens.
    var lead := MinReal(delay, gone + delay + TTL - now) / 2.0;
    var read := gone - lead;
    var at := MinReal(read + delay, now);
    var first := [Invalidated(gone)];
    events := first + [Loaded(Fetched(before), read, at)];
    assert events[..1] == first;
    assert Run(events) == AfterLoad(Run(first), Fetched(before), at);
    assert email in [email];
    StoredRowJudges(Run(events), before, at, email);
  }
}
