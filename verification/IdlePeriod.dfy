/** How long the collector of backend/app/middleware/rate_limit.py must let a bucket be idle when the
    limits do not change: less than an hour, because the traffic around the idle time is bounded too.
 */
module IdlePeriod {
  import opened Common
  import opened RateBucket
  import opened RateLimiting
  import opened McpRuns

  // ---------------------------------------------------------------------------------------
  // The admissions of the present bucket and those of its predecessors
  // ---------------------------------------------------------------------------------------

  /** Limits that do not change, and sweeps that wait `n` seconds. */
  ghost predicate Steady(ops: seq<Op>, l: Limits, n: int) {
    Timely(ops) && Waits(ops, n) && OnlyLimits(ops, l)
  }

  lemma SteadyPrefix(ops: seq<Op>, l: Limits, n: int)
    requires ops != [] && Steady(ops, l, n)
    ensures Steady(ops[..|ops| - 1], l, n)
  {
  }

  /** The present bucket was created at `born`; `cur` are its admissions, `past` the earlier ones. */
  datatype Era = Era(born: real, past: seq<Admission>, cur: seq<Admission>)

  ghost function Grow(e: Era, ob: Option<Bucket>, op: Op): Era {
    if !op.Request? then e
    else
      var e' := if ob == None then Era(op.created, e.past + e.cur, []) else e;
      e'.(cur := Extended(e'.cur, Admission(op.at, op.limits), Admits(ob, op)))
  }

  ghost function EraOf(ops: seq<Op>): Era {
    if ops == [] then Era(0.0, [], [])
    else Grow(EraOf(ops[..|ops| - 1]), Run(ops[..|ops| - 1]), ops[|ops| - 1])
  }

  lemma {:induction false} EraHoldsAdmissions(ops: seq<Op>)
    ensures Admissions(ops) == EraOf(ops).past + EraOf(ops).cur
    decreases |ops|
  {
    if ops != [] {
      EraHoldsAdmissions(ops[..|ops| - 1]);
    }
  }

  ghost predicate Below(adm: seq<Admission>, t: real) {
    forall i :: 0 <= i < |adm| ==> adm[i].at < t
  }

  ghost predicate NotBelow(adm: seq<Admission>, t: real) {
    forall i :: 0 <= i < |adm| ==> adm[i].at >= t
  }

  /** Spent and remaining tokens come from what a new bucket holds and the refill since it was made. */
  ghost predicate Spent(l: Limits, b: Bucket, spent: int, since: real, t: real) {
    spent as real + Refill(l, b, t) <= MinReal(l.burst as real, 10.0) + Earned(l, since, t)
  }

  /** The lists know the present bucket's admissions, which its tokens paid for; all others are `n`
      seconds older than the bucket. */
  ghost predicate Grown(e: Era, ob: Option<Bucket>, l: Limits, n: int, t: real) {
    match ob
    case None => Below(e.past + e.cur, t - n as real)
    case Some(b) =>
      && e.born <= b.lastUpdate && b.tokens >= 0.0
      && Below(e.past, e.born - n as real) && NotBelow(e.cur, e.born)
      && Remembers(Some(b), e.cur, t)
      && Spent(l, b, |e.cur|, e.born, t)
  }

  lemma SpentLater(l: Limits, b: Bucket, spent: int, since: real, t: real, now: real)
    requires Spent(l, b, spent, since, t) && t <= now && Fillable(l)
    ensures Spent(l, b, spent, since, now)
  {
    RefillGrows(l, b, t, now);
    EarnedAdds(l, since, t, now);
  }

  lemma GrownLater(e: Era, ob: Option<Bucket>, l: Limits, n: int, t: real, now: real)
    requires Grown(e, ob, l, n, t) && t <= now && Fillable(l)
    ensures Grown(e, ob, l, n, now)
  {
    if ob.Some? {
      RemembersLater(ob, e.cur, t, now);
      SpentLater(l, ob.value, |e.cur|, e.born, t, now);
    }
  }

  /** The era and the bucket a request finds. */
  function Found(e: Era, ob: Option<Bucket>, created: real): Era {
    if ob == None then Era(created, e.past + e.cur, []) else e
  }

  lemma TouchGrown(e: Era, ob: Option<Bucket>, l: Limits, n: int, created: real)
    requires Grown(e, ob, l, n, created) && Fillable(l)
    ensures Grown(Found(e, ob, created), Some(Touch(ob, created)), l, n, created)
  {
    if ob == None {
      var b := NewBucket(created);
      EarnedAtOnce(l, created);
      assert Recent([], created - MINUTE) == Recent(Times([]), created - MINUTE);
      assert Remembers(Some(b), [], created);
    }
  }

  lemma UseGrown(e: Era, b: Bucket, l: Limits, n: int, now: real)
    requires Grown(e, Some(b), l, n, now) && Fillable(l)
    ensures var (u, d) := Use(l, b, now);
            Grown(e.(cur := Extended(e.cur, Admission(now, l), d.allowed)), Some(u), l, n, now)
  {
    var (u, d) := Use(l, b, now);
    UseEffect(l, b, now);
    RequestRemembers(l, b, u, d.allowed, e.cur, now);
    RequestSpends(l, b, u, d.allowed, now);
  }

  lemma SweepGrown(e: Era, b: Bucket, l: Limits, n: int, inactive: int, now: real)
    requires Grown(e, Some(b), l, n, now) && inactive >= n >= 0 && Inactive(b, now - inactive as real)
    ensures Grown(e, None, l, n, now)
  {
    forall i | 0 <= i < |e.past + e.cur| ensures (e.past + e.cur)[i].at < now - n as real {
      if i >= |e.past| {
        assert e.cur[i - |e.past|].at <= b.lastUpdate;
      }
    }
  }

  lemma {:induction false} RunGrown(ops: seq<Op>, l: Limits, n: int)
    requires ops != [] && Steady(ops, l, n) && Refills(l, n) && n >= 0
    ensures Grown(EraOf(ops), Run(ops), l, n, End(ops))
    decreases |ops|, 1
  {
    var before, op := ops[..|ops| - 1], ops[|ops| - 1];
    var e, ob := EraOf(before), Run(before);
    match op {
      case Request(_, created, now) =>
        FoundGrown(ops, l, n);
        UseGrown(Found(e, ob, created), Touch(ob, created), l, n, now);
      case Sweep(inactive, now) =>
        GrownBefore(ops, l, n, now);
        if ob.Some? && Inactive(ob.value, now - inactive as real) {
          SweepGrown(e, ob.value, l, n, inactive, now);
        }
      case Other(now) => GrownBefore(ops, l, n, now);
    }
  }

  /** What the last request of a run finds. */
  lemma {:induction false} FoundGrown(ops: seq<Op>, l: Limits, n: int)
    requires ops != [] && ops[|ops| - 1].Request?
    requires Steady(ops, l, n) && Refills(l, n) && n >= 0
    ensures var before, op := ops[..|ops| - 1], ops[|ops| - 1];
            Grown(Found(EraOf(before), Run(before), op.created), Some(Touch(Run(before), op.created)), l, n, op.at)
    decreases |ops|, 0, 1
  {
    var before, op := ops[..|ops| - 1], ops[|ops| - 1];
    var e, ob := EraOf(before), Run(before);
    GrownBefore(ops, l, n, op.created);
    TouchGrown(e, ob, l, n, op.created);
    GrownLater(Found(e, ob, op.created), Some(Touch(ob, op.created)), l, n, op.created, op.at);
  }

  lemma {:induction false} GrownBefore(ops: seq<Op>, l: Limits, n: int, t: real)
    requires ops != [] && Steady(ops, l, n) && Refills(l, n) && n >= 0
    requires forall i :: 0 <= i < |ops| - 1 ==> ops[i].at <= t
    ensures Grown(EraOf(ops[..|ops| - 1]), Run(ops[..|ops| - 1]), l, n, t)
    decreases |ops|, 0, 0
  {
    var before := ops[..|ops| - 1];
    if before != [] {
      SteadyPrefix(ops, l, n);
      RunGrown(before, l, n);
      assert End(before) == ops[|ops| - 2].at;
      GrownLater(EraOf(before), Run(before), l, n, End(before), t);
    }
  }

  // ---------------------------------------------------------------------------------------
  // Room in the windows
  // ---------------------------------------------------------------------------------------

  /** Two bursts and the refill of the rest of the hour stay within the hourly limit. */
  predicate LongEnough(l: Limits, n: int) {
    && Refills(l, n) && n >= 60
    && l.burst as real + MinReal(l.burst as real, 10.0) + (3600 - n) as real * Rate(l) <= (l.perHour + 1) as real
  }

  lemma {:induction false} WindowOfBoth(past: seq<Admission>, cur: seq<Admission>, lo: real, hi: real)
    ensures InWindow(past + cur, lo, hi) == InWindow(past, lo, hi) + InWindow(cur, lo, hi)
    decreases |cur|
  {
    if cur == [] {
      assert past + cur == past;
    } else {
      var n := |cur| - 1;
      WindowOfBoth(past, cur[..n], lo, hi);
      assert (past + cur)[..|past + cur| - 1] == past + cur[..n];
    }
  }

  lemma {:induction false} EmptyWindow(adm: seq<Admission>, lo: real, hi: real)
    requires AllUpTo(adm, lo)
    ensures InWindow(adm, lo, hi) == []
  {
    if adm != [] {
      EmptyWindow(adm[..|adm| - 1], lo, hi);
    }
  }

  lemma {:induction false} WindowIsPart(adm: seq<Admission>, lo: real, hi: real)
    ensures |InWindow(adm, lo, hi)| <= |adm|
  {
    if adm != [] {
      WindowIsPart(adm[..|adm| - 1], lo, hi);
    }
  }

  /** A finite number of admissions before `t` ends before `t`. */
  lemma {:induction false} LastOf(adm: seq<Admission>, floor: real, t: real) returns (y: real)
    requires Below(adm, t) && floor < t
    ensures floor <= y < t && AllUpTo(adm, y)
  {
    if adm == [] {
      y := floor;
    } else {
      y := LastOf(adm[..|adm| - 1], floor, t);
      if y < adm[|adm| - 1].at {
        y := adm[|adm| - 1].at;
      }
    }
  }

  lemma {:induction false} WindowWithinInterval(past: seq<Admission>, cur: seq<Admission>, lo: real, hi: real, y: real)
    requires AllUpTo(past, y)
    ensures |InWindow(past, lo, hi)| <= CountBetween(past + cur, lo, y)
    decreases |past| + |cur|
  {
    if cur != [] {
      var n := |cur| - 1;
      WindowWithinInterval(past, cur[..n], lo, hi, y);
      assert (past + cur)[..|past + cur| - 1] == past + cur[..n];
    } else if past != [] {
      assert past + cur == past;
      var n := |past| - 1;
      WindowWithinInterval(past[..n], [], lo, hi, y);
      assert past[..n] + [] == past[..n];
    }
  }

  lemma EarnedAround(l: Limits, n: int, now: real, born: real, y: real)
    requires LongEnough(l, n) && y < born - n as real
    ensures l.burst as real + Earned(l, now - HOUR, y) + MinReal(l.burst as real, 10.0) + Earned(l, born, now)
          < (l.perHour + 1) as real
  {
    var rate := Rate(l);
    assert rate > 0.0;
    assert Earned(l, now - HOUR, y) + Earned(l, born, now) == (HOUR - (born - y)) * rate;
    assert (HOUR - (born - y)) * rate < (3600 - n) as real * rate by {
      Shorter(HOUR - (born - y), (3600 - n) as real, rate);
    }
  }

  lemma Shorter(x: real, y: real, rate: real)
    requires x < y && rate > 0.0
    ensures x * rate < y * rate
  {
  }

  /** Before an admission the last hour holds fewer than the limit: either the lists know all of it, or
      the idle time falls into it. */
  lemma HourHasRoom(ops: seq<Op>, l: Limits, n: int, e: Era, b: Bucket, now: real)
    requires Steady(ops, l, n) && LongEnough(l, n)
    requires Admissions(ops) == e.past + e.cur && Grown(e, Some(b), l, n, now) && Use(l, b, now).1.allowed
    ensures HasRoom(e.past + e.cur, l, PerHour, now)
  {
    if AllUpTo(e.past, now - HOUR) {
      ListsKnowHour(l, n, e, b, now);
    } else {
      var last := LastOfPast(l, n, e, b, now);
      PastFits(ops, l, n, e, now, last);
      CurFits(l, b, e, n, now);
      IdleWithinHour(e, l, n, now, last);
    }
  }

  lemma ListsKnowHour(l: Limits, n: int, e: Era, b: Bucket, now: real)
    requires Grown(e, Some(b), l, n, now) && Use(l, b, now).1.allowed && AllUpTo(e.past, now - HOUR)
    ensures HasRoom(e.past + e.cur, l, PerHour, now)
  {
    UseEffect(l, b, now);
    WindowOfBoth(e.past, e.cur, now - HOUR, now);
    EmptyWindow(e.past, now - HOUR, now);
    WindowWithinRecent(e.cur, now - HOUR, now);
  }

  lemma IdleWithinHour(e: Era, l: Limits, n: int, now: real, last: real)
    requires LongEnough(l, n) && last < e.born - n as real
    requires |InWindow(e.past, now - HOUR, now)| as real <= l.burst as real + Earned(l, now - HOUR, last)
    requires (|InWindow(e.cur, now - HOUR, now)| + 1) as real
          <= MinReal(l.burst as real, 10.0) + Earned(l, e.born, now)
    ensures HasRoom(e.past + e.cur, l, PerHour, now)
  {
    EarnedAround(l, n, now, e.born, last);
    WindowOfBoth(e.past, e.cur, now - HOUR, now);
    AddUp(|InWindow(e.past, now - HOUR, now)|, |InWindow(e.cur, now - HOUR, now)|, l.perHour,
          l.burst as real + Earned(l, now - HOUR, last), MinReal(l.burst as real, 10.0) + Earned(l, e.born, now));
  }

  lemma LastOfPast(l: Limits, n: int, e: Era, b: Bucket, now: real) returns (last: real)
    requires Grown(e, Some(b), l, n, now) && !AllUpTo(e.past, now - HOUR)
    ensures now - HOUR <= last < e.born - n as real && AllUpTo(e.past, last)
  {
    var i :| 0 <= i < |e.past| && e.past[i].at > now - HOUR;
    last := LastOf(e.past, now - HOUR, e.born - n as real);
  }

  lemma AddUp(i: int, j: int, k: int, x: real, y: real)
    requires i as real <= x && (j + 1) as real <= y && x + y < (k + 1) as real
    ensures i + j < k
  {
  }

  lemma PastFits(ops: seq<Op>, l: Limits, n: int, e: Era, now: real, y: real)
    requires Steady(ops, l, n) && Refills(l, n)
    requires Admissions(ops) == e.past + e.cur && AllUpTo(e.past, y) && now - HOUR <= y
    ensures |InWindow(e.past, now - HOUR, now)| as real <= l.burst as real + Earned(l, now - HOUR, y)
  {
    WindowWithinInterval(e.past, e.cur, now - HOUR, now, y);
    TokenBound(ops, l, now - HOUR, y, n);
  }

  lemma CurFits(l: Limits, b: Bucket, e: Era, n: int, now: real)
    requires Grown(e, Some(b), l, n, now) && Use(l, b, now).1.allowed
    ensures (|InWindow(e.cur, now - HOUR, now)| + 1) as real <= MinReal(l.burst as real, 10.0) + Earned(l, e.born, now)
  {
    UseEffect(l, b, now);
    WindowIsPart(e.cur, now - HOUR, now);
  }

  lemma MinuteHasRoom(l: Limits, n: int, e: Era, b: Bucket, now: real)
    requires Grown(e, Some(b), l, n, now) && Use(l, b, now).1.allowed && n >= 60
    ensures HasRoom(e.past + e.cur, l, PerMinute, now)
  {
    UseEffect(l, b, now);
    WindowOfBoth(e.past, e.cur, now - MINUTE, now);
    EmptyWindow(e.past, now - MINUTE, now);
    WindowWithinRecent(e.cur, now - MINUTE, now);
  }

  // ---------------------------------------------------------------------------------------
  // The limits hold
  // ---------------------------------------------------------------------------------------

  lemma {:induction false} WindowShrinks(adm: seq<Admission>, lo: real, hi: real, lo': real, hi': real)
    requires AllUpTo(adm, hi) && lo <= lo'
    ensures |InWindow(adm, lo', hi')| <= |InWindow(adm, lo, hi)|
  {
    if adm != [] {
      WindowShrinks(adm[..|adm| - 1], lo, hi, lo', hi');
    }
  }

  /** Fewer admissions than the limit in the window that ends now. */
  ghost predicate HasRoom(adm: seq<Admission>, l: Limits, w: Window, now: real) {
    |InWindow(adm, now - Span(w), now)| < Allowance(l, w)
  }

  lemma OneMoreWithin(adm: seq<Admission>, a: Admission, w: Window, t: real)
    requires AllUpTo(adm, a.at) && Within(adm, w, t)
    requires HasRoom(adm, a.limits, w, a.at)
    ensures Within(adm + [a], w, t)
  {
    var room := |InWindow(adm, a.at - Span(w), a.at)|;
    if a.at <= t {
      WindowShrinks(adm, a.at - Span(w), a.at, t - Span(w), t);
    }
    OneMoreFits(adm, a, w, t - Span(w), t, room);
  }

  /** With limits that do not change, both windows hold at every time of every run whose sweeps wait long
      enough for them. */
  lemma {:induction false} WindowsHold(ops: seq<Op>, l: Limits, n: int, w: Window, t: real)
    requires Steady(ops, l, n) && LongEnough(l, n)
    ensures Within(Admissions(ops), w, t)
    decreases |ops|
  {
    if ops != [] {
      var before, op := ops[..|ops| - 1], ops[|ops| - 1];
      SteadyPrefix(ops, l, n);
      WindowsHold(before, l, n, w, t);
      if Admits(Run(before), op) {
        RoomBefore(ops, l, n, w);
        OneMoreWithin(Admissions(before), Admission(op.at, l), w, t);
      }
    }
  }

  lemma RoomBefore(ops: seq<Op>, l: Limits, n: int, w: Window)
    requires ops != [] && Steady(ops, l, n) && LongEnough(l, n)
    requires Admits(Run(ops[..|ops| - 1]), ops[|ops| - 1])
    ensures var adm, now := Admissions(ops[..|ops| - 1]), End(ops);
            AllUpTo(adm, now) && HasRoom(adm, l, w, now)
  {
    var before, op := ops[..|ops| - 1], ops[|ops| - 1];
    var e, b := Found(EraOf(before), Run(before), op.created), Touch(Run(before), op.created);
    assert Grown(e, Some(b), l, n, op.at) by {
      FoundGrown(ops, l, n);
    }
    assert Admissions(before) == e.past + e.cur by {
      EraHoldsAdmissions(before);
      FoundIsAll(EraOf(before), Run(before), op.created);
    }
    assert AllUpTo(Admissions(before), op.at) by {
      AdmittedBefore(ops);
    }
    SteadyPrefix(ops, l, n);
    RoomFor(before, l, n, e, b, op.at, w);
  }

  lemma FoundIsAll(e: Era, ob: Option<Bucket>, created: real)
    ensures Found(e, ob, created).past + Found(e, ob, created).cur == e.past + e.cur
  {
    assert (e.past + e.cur) + [] == e.past + e.cur;
  }

  lemma AdmittedBefore(ops: seq<Op>)
    requires ops != [] && Timely(ops)
    ensures AllUpTo(Admissions(ops[..|ops| - 1]), End(ops))
  {
    if |ops| > 1 {
      AdmissionsUpTo(ops[..|ops| - 1]);
      assert End(ops[..|ops| - 1]) == ops[|ops| - 2].at;
    }
  }

  lemma RoomFor(ops: seq<Op>, l: Limits, n: int, e: Era, b: Bucket, now: real, w: Window)
    requires Steady(ops, l, n) && LongEnough(l, n)
    requires Admissions(ops) == e.past + e.cur && Grown(e, Some(b), l, n, now) && Use(l, b, now).1.allowed
    ensures HasRoom(e.past + e.cur, l, w, now)
  {
    if w == PerHour {
      HourHasRoom(ops, l, n, e, b, now);
    } else {
      MinuteHasRoom(l, n, e, b, now);
    }
  }

  // ---------------------------------------------------------------------------------------
  // The whole limiter
  // ---------------------------------------------------------------------------------------

  /** With limits that do not change for its group, no client gets more through than they allow, if sweeps
      wait long enough for them. */
  lemma UnchangedLimitsHold(
      c: Config, events: seq<Event>, client: string, group: string, l: Limits, n: int, w: Window, t: real)
    requires WellFormed(c) && TimelyRun(events) && SweepsWait(events, n) && ':' !in group
    requires Fixed(c, events, group, l) && LongEnough(l, n)
    ensures Within(Admitted(c, events, client, group), w, t)
  {
    var ops := Views(c, events, Key(client, group));
    ViewsAreTimely(c, events, Key(client, group), n);
    ViewsAreFixed(c, events, client, group, l);
    TableRefinesBucket(c, events, client, group);
    WindowsHold(ops, l, n, w, t);
  }

  /** The limits of the program: the configured ones, and what an administrator can set. */
  predicate ProgramLimits(l: Limits) {
    || l == INITIAL.fallback
    || (exists i :: 0 <= i < |INITIAL.paths| && l == INITIAL.paths[i].1)
    || (exists perMinute :: 10 <= perMinute <= 10000 && l == McpLimits(perMinute))
  }

  lemma McpLongEnough(perMinute: int, n: int)
    requires perMinute >= 10 && n >= 2634
    ensures LongEnough(McpLimits(perMinute), n)
  {
    var l := McpLimits(perMinute);
    assert n * perMinute >= 2634 * 10 by {
      assert (n - 2634) * perMinute >= 0 && 2634 * perMinute >= 2634 * 10;
    }
    RefillOfRest(l, n);
  }

  /** What flows in when nobody is idle for `n` seconds. */
  lemma RefillOfRest(l: Limits, n: int)
    requires l.perMinute >= 1 && n >= 2634
    ensures (3600 - n) as real * Rate(l) <= 966.0 * (l.perMinute as real / 60.0)
  {
    if n > 2634 {
      Shorter((3600 - n) as real, 966.0, Rate(l));
    }
  }

  lemma ProgramLongEnough(l: Limits, n: int)
    requires ProgramLimits(l) && n >= 2634
    ensures LongEnough(l, n)
  {
    if perMinute :| 10 <= perMinute <= 10000 && l == McpLimits(perMinute) {
      McpLongEnough(perMinute, n);
    } else {
      RefillOfRest(l, n);
    }
  }

  // ---------------------------------------------------------------------------------------
  // A client that makes the most of ten requests a minute
  // ---------------------------------------------------------------------------------------

  /** In each minute five requests at once, then one every six seconds until it is half over. */
  function SlotTime(start: real, i: nat): real {
    var within := if i % 10 < 5 then 0 else 6 * (i % 10 - 4);
    start + (60 * (i / 10) + within) as real
  }

  lemma SlotGap(start: real, i: nat)
    ensures SlotTime(start, i + 1) - SlotTime(start, i)
         == if i % 10 < 4 then 0.0 else if i % 10 < 9 then 6.0 else 30.0
  {
    if i % 10 == 9 {
      assert (i + 1) / 10 == i / 10 + 1 && (i + 1) % 10 == 0;
    } else {
      assert (i + 1) / 10 == i / 10 && (i + 1) % 10 == i % 10 + 1;
    }
  }

  lemma {:induction false} SlotsAscend(start: real, i: nat, j: nat)
    requires i <= j
    ensures SlotTime(start, i) <= SlotTime(start, j)
    decreases j
  {
    if i < j {
      SlotsAscend(start, i, j - 1);
      SlotGap(start, j - 1);
    }
  }

  lemma TenSlotsLater(start: real, i: nat, j: nat)
    requires j == i + 10
    ensures SlotTime(start, i) == SlotTime(start, j) - MINUTE
  {
    assert j / 10 == i / 10 + 1 && j % 10 == i % 10;
  }

  /** In the ninth minute. */
  lemma EightMinutesOn(start: real)
    ensures SlotTime(start, 84) == start + 480.0 && SlotTime(start, 85) == start + 486.0
  {
  }

  function SlotStamps(start: real, n: nat): seq<real> {
    if n == 0 then [] else SlotStamps(start, n - 1) + [SlotTime(start, n - 1)]
  }

  lemma {:induction false} SlotStampsAt(start: real, n: nat)
    ensures |SlotStamps(start, n)| == n
    ensures forall i :: 0 <= i < n ==> SlotStamps(start, n)[i] == SlotTime(start, i)
  {
    if n > 0 {
      SlotStampsAt(start, n - 1);
    }
  }

  /** If the first `m` stamps are outside, at most the others are inside. */
  lemma {:induction false} RecentAtMost(s: seq<real>, m: nat, cutoff: real)
    requires m <= |s| && forall i :: 0 <= i < m ==> s[i] <= cutoff
    ensures |Recent(s, cutoff)| <= |s| - m
  {
    if s != [] {
      var n := |s| - 1;
      RecentAtMost(s[..n], if m <= n then m else n, cutoff);
    }
  }

  lemma RecentSlots(start: real, n: nat, m: nat, cutoff: real)
    requires m <= n && (m > 0 ==> SlotTime(start, m - 1) <= cutoff)
    ensures |Recent(SlotStamps(start, n), cutoff)| <= n - m
  {
    SlotStampsAt(start, n);
    forall i | 0 <= i < m ensures SlotStamps(start, n)[i] <= cutoff {
      SlotsAscend(start, i, m - 1);
    }
    RecentAtMost(SlotStamps(start, n), m, cutoff);
  }

  lemma {:induction false} AllSlotsRecent(start: real, n: nat, cutoff: real)
    requires cutoff < start
    ensures Recent(SlotStamps(start, n), cutoff) == SlotStamps(start, n) && |SlotStamps(start, n)| == n
  {
    if n > 0 {
      AllSlotsRecent(start, n - 1, cutoff);
      SlotsAscend(start, 0, n - 1);
      RecentSnoc(SlotStamps(start, n - 1), SlotTime(start, n - 1), cutoff);
    }
  }

  /** The bucket after `n` requests. */
  function SlotBucket(start: real, n: nat): Bucket
    requires n > 0
  {
    var t, stamps, r := SlotTime(start, n - 1), SlotStamps(start, n), (n - 1) % 10;
    Bucket(if r < 5 then (4 - r) as real else 0.0, t, Recent(stamps, t - MINUTE), stamps)
  }

  lemma FewerThanTen(start: real, n: nat, cutoff: real)
    requires n >= 10 ==> SlotTime(start, n - 10) <= cutoff
    ensures |Recent(SlotStamps(start, n), cutoff)| < 10
  {
    var m := if n >= 10 then n - 9 else 0;
    assert m > 0 ==> m - 1 == n - 10;
    RecentSlots(start, n, m, cutoff);
  }

  lemma SlotsInMinute(start: real, n: nat)
    ensures |Recent(SlotStamps(start, n), SlotTime(start, n) - MINUTE)| < 10
  {
    if n >= 10 {
      TenSlotsLater(start, n - 10, n);
    }
    FewerThanTen(start, n, SlotTime(start, n) - MINUTE);
  }

  lemma SlotMinute(start: real, n: nat)
    requires n > 0
    ensures var t := SlotTime(start, n);
            && Recent(SlotBucket(start, n).minute, t - MINUTE) == Recent(SlotStamps(start, n), t - MINUTE)
            && Recent(SlotStamps(start, n), t - MINUTE) + [t] == SlotBucket(start, n + 1).minute
  {
    var stamps, t := SlotStamps(start, n), SlotTime(start, n);
    SlotsAscend(start, n - 1, n);
    PruneAndAppend(stamps, SlotTime(start, n - 1), t);
    assert SlotBucket(start, n).minute == Recent(stamps, SlotTime(start, n - 1) - MINUTE);
    assert SlotBucket(start, n + 1).minute == Recent(stamps + [t], t - MINUTE);
  }

  lemma PruneAndAppend(stamps: seq<real>, before: real, t: real)
    requires before <= t
    ensures Recent(Recent(stamps, before - MINUTE), t - MINUTE) == Recent(stamps, t - MINUTE)
    ensures Recent(stamps + [t], t - MINUTE) == Recent(stamps, t - MINUTE) + [t]
  {
    RecentTwice(stamps, before - MINUTE, t - MINUTE);
    RecentSnoc(stamps, t, t - MINUTE);
  }

  lemma SlotTokens(start: real, n: nat)
    requires n > 0
    ensures var b, t := SlotBucket(start, n), SlotTime(start, n);
            Refill(LOW, b, t) >= 1.0 && Refill(LOW, b, t) - 1.0 == SlotBucket(start, n + 1).tokens
  {
    SlotGap(start, n - 1);
    LowRate(SlotTime(start, n - 1), SlotTime(start, n));
  }

  lemma SlotUse(start: real, n: nat)
    requires 0 < n < 100
    ensures var (u, d) := Use(LOW, SlotBucket(start, n), SlotTime(start, n));
            u == SlotBucket(start, n + 1) && d.allowed
  {
    var b, t := SlotBucket(start, n), SlotTime(start, n);
    SlotMinute(start, n);
    SlotsInMinute(start, n);
    SlotTokens(start, n);
    assert Recent(b.hour, t - HOUR) == SlotStamps(start, n) && |SlotStamps(start, n)| == n by {
      SlotSpan(start, n);
      AllSlotsRecent(start, n, t - HOUR);
    }
    UseWithRoom(LOW, b, t, Recent(SlotStamps(start, n), t - MINUTE), SlotStamps(start, n));
  }

  lemma SlotSpan(start: real, n: nat)
    requires n < 100
    ensures start <= SlotTime(start, n) < start + HOUR
  {
    assert n / 10 < 10;
  }

  lemma FirstSlotUse(start: real)
    ensures var (u, d) := Use(LOW, NewBucket(start), SlotTime(start, 0));
            u == SlotBucket(start, 1) && d.allowed
  {
    LowRate(start, start);
    assert SlotStamps(start, 1) == [start] && SlotTime(start, 0) == start;
    AllSlotsRecent(start, 1, start - MINUTE);
  }

  // ---------------------------------------------------------------------------------------
  // ... twice in an hour, with a sweep in between
  // ---------------------------------------------------------------------------------------

  function Slots(events: seq<Event>, client: string, start: real, n: nat): seq<Event> {
    if n == 0 then events
    else
      var t := SlotTime(start, n - 1);
      Slots(events, client, start, n - 1) + [Check(client, MCP, t, t)]
  }

  /** Admissions in the hour that ends at 3599.5. */
  function Count(adm: seq<Admission>): nat {
    |InWindow(adm, 3599.5 - HOUR, 3599.5)|
  }

  lemma CountOneMore(adm: seq<Admission>, a: Admission)
    requires 3599.5 - HOUR < a.at <= 3599.5
    ensures Count(adm + [a]) == Count(adm) + 1
  {
    assert (adm + [a])[..|adm|] == adm;
  }

  ghost predicate OnlyLow(events: seq<Event>) {
    Fixed(INITIAL, events, MCP, LOW)
  }

  lemma OnlyLowVisit(events: seq<Event>, client: string, ob: Option<Bucket>, e: Event)
    requires OnlyLow(events) && Reaches(events, client, LOW, ob) && (e.Check? ==> e.path == MCP)
    ensures OnlyLow(events + [e])
  {
    McpJudged(LOW);
    var all := events + [e];
    assert all[..|events|] == events;
    assert forall i :: 0 <= i < |events| ==> all[..i] == events[..i] && all[i] == events[i];
  }

  /** The limits have always been low, `ob` is the client's bucket, and it got `k` requests through. */
  ghost predicate Through(events: seq<Event>, client: string, ob: Option<Bucket>, k: nat) {
    Reaches(events, client, LOW, ob) && OnlyLow(events) && Count(Admitted(INITIAL, events, client, MCP)) == k
  }

  /** A request at `t` is admitted and leaves the bucket `b`. */
  ghost predicate Passes(ob: Option<Bucket>, t: real, b: Bucket) {
    Use(LOW, Touch(ob, t), t).0 == b && Use(LOW, Touch(ob, t), t).1.allowed
  }

  lemma OneMoreThrough(events: seq<Event>, client: string, ob: Option<Bucket>, k: nat, t: real, b: Bucket)
    requires Through(events, client, ob, k) && 0.0 <= t <= 3599.5
    requires Passes(ob, t, b)
    ensures Through(events + [Check(client, MCP, t, t)], client, Some(b), k + 1)
  {
    Visit(events, client, LOW, ob, t, b);
    VisitAdmits(events, client, LOW, ob, t);
    CountOneMore(Admitted(INITIAL, events, client, MCP), Admission(t, LOW));
    OnlyLowVisit(events, client, ob, Check(client, MCP, t, t));
  }

  /** The bucket of a client that had none, after `n` requests. */
  function SlotBuckets(start: real, n: nat): Option<Bucket> {
    if n == 0 then None else Some(SlotBucket(start, n))
  }

  lemma SlotPasses(start: real, n: nat)
    requires n < 100
    ensures Passes(SlotBuckets(start, n), SlotTime(start, n), SlotBucket(start, n + 1))
  {
    if n == 0 {
      FirstSlotPasses(start);
    } else {
      LaterSlotPasses(start, n);
    }
  }

  lemma FirstSlotPasses(start: real)
    ensures Passes(None, SlotTime(start, 0), SlotBucket(start, 1))
  {
    FirstSlotUse(start);
    assert SlotTime(start, 0) == start;
  }

  lemma LaterSlotPasses(start: real, n: nat)
    requires 0 < n < 100
    ensures Passes(Some(SlotBucket(start, n)), SlotTime(start, n), SlotBucket(start, n + 1))
  {
    SlotUse(start, n);
  }

  /** All of the first `n` requests come before 3599.5. */
  ghost predicate InTime(start: real, n: nat) {
    0.0 <= start && (n > 0 ==> SlotTime(start, n - 1) <= 3599.5)
  }

  lemma InTimeBefore(start: real, n: nat)
    requires n > 0 && InTime(start, n)
    ensures InTime(start, n - 1) && 0.0 <= start <= SlotTime(start, n - 1) <= 3599.5
  {
    SlotsAscend(start, 0, n - 1);
    if n > 1 {
      SlotsAscend(start, n - 2, n - 1);
    }
  }

  /** What a client without a bucket gets through: all of it. */
  lemma {:induction false} SlotsGetThrough(events: seq<Event>, client: string, start: real, n: nat, k: nat)
    requires Through(events, client, None, k) && n < 100 && InTime(start, n)
    ensures Through(Slots(events, client, start, n), client, SlotBuckets(start, n), k + n)
    decreases n
  {
    if n > 0 {
      var t := SlotTime(start, n - 1);
      InTimeBefore(start, n);
      SlotsGetThrough(events, client, start, n - 1, k);
      SlotPasses(start, n - 1);
      OneMoreThrough(Slots(events, client, start, n - 1), client, SlotBuckets(start, n - 1), k + n - 1, t,
                     SlotBucket(start, n));
    }
  }

  const SWEEP: real := 3113.5

  function FirstRound(client: string): seq<Event> {
    Slots([Update(10, 0.0)], client, 0.0, 85)
  }

  function TwoRounds(client: string, n: int): seq<Event> {
    Slots(FirstRound(client) + [Cleanup(n, SWEEP)], client, SWEEP, 86)
  }

  lemma FirstChange(client: string)
    ensures Through([Update(10, 0.0)], client, None, 0)
  {
    Start(client);
    Change([], client, START, None, 10, 0.0);
    assert [] + [Update(10, 0.0)] == [Update(10, 0.0)];
  }

  lemma FirstRoundCounts(client: string)
    ensures Through(FirstRound(client), client, Some(SlotBucket(0.0, 85)), 85)
  {
    FirstChange(client);
    EightMinutesOn(0.0);
    SlotsGetThrough([Update(10, 0.0)], client, 0.0, 85, 0);
  }

  lemma SlotBucketIdles(n: int)
    requires n < 2634
    ensures SlotBucket(0.0, 85).lastUpdate == 480.0 && Inactive(SlotBucket(0.0, 85), SWEEP - n as real)
  {
    var b := SlotBucket(0.0, 85);
    EightMinutesOn(0.0);
    SlotStampsUpTo(0.0, 85);
    RecentAreRecent(SlotStamps(0.0, 85), b.lastUpdate - MINUTE);
    assert 480.0 in SlotStamps(0.0, 85);
    assert 480.0 in b.minute;
    MaximumIn(b.minute);
  }

  lemma {:induction false} SlotStampsUpTo(start: real, n: nat)
    ensures forall x :: x in SlotStamps(start, n) ==> n > 0 && x <= SlotTime(start, n - 1)
  {
    if n > 0 {
      SlotStampsUpTo(start, n - 1);
      if n > 1 {
        SlotsAscend(start, n - 2, n - 1);
      }
    }
  }

  lemma SweptBetween(client: string, n: int)
    requires n < 2634
    ensures Through(FirstRound(client) + [Cleanup(n, SWEEP)], client, None, 85)
  {
    var b := SlotBucket(0.0, 85);
    FirstRoundCounts(client);
    SlotBucketIdles(n);
    SweepOut(FirstRound(client), client, LOW, b, n, SWEEP);
    OnlyLowVisit(FirstRound(client), client, Some(b), Cleanup(n, SWEEP));
  }

  /** At ten requests a minute a sweep of buckets idle for less than 2634 seconds lets 171 requests of one
      client through within an hour, where 170 are allowed. */
  lemma ShorterSweepsBreakTheHour(client: string, n: int)
    requires n < 2634
    ensures var events := TwoRounds(client, n);
            && TimelyRun(events) && SweepsWait(events, n) && Fixed(INITIAL, events, MCP, LOW)
            && !Within(Admitted(INITIAL, events, client, MCP), PerHour, 3599.5)
  {
    var swept := FirstRound(client) + [Cleanup(n, SWEEP)];
    SweptBetween(client, n);
    EightMinutesOn(SWEEP);
    SlotsGetThrough(swept, client, SWEEP, 86, 85);
    TwoRoundsAreTimely(client, n);
    TooMany(TwoRounds(client, n), client);
  }

  lemma TooMany(events: seq<Event>, client: string)
    requires OnlyLow(events) && Count(Admitted(INITIAL, events, client, MCP)) > 170
    ensures !Within(Admitted(INITIAL, events, client, MCP), PerHour, 3599.5)
  {
    var adm := Admitted(INITIAL, events, client, MCP);
    assert forall i :: 0 <= i < |adm| ==> adm[i].limits == LOW by {
      InitialWellFormed();
      assert ':' !in MCP;
      ViewsAreFixed(INITIAL, events, client, MCP, LOW);
    }
    HourBroken(adm);
  }

  lemma HourBroken(adm: seq<Admission>)
    requires (forall i :: 0 <= i < |adm| ==> adm[i].limits == LOW) && Count(adm) > 170
    ensures !Within(adm, PerHour, 3599.5)
  {
    var inside := InWindow(adm, 3599.5 - HOUR, 3599.5);
    WindowKeepsLimits(adm, 3599.5 - HOUR, 3599.5, LOW);
    assert inside[|inside| - 1] in inside;
  }

  ghost predicate Until(events: seq<Event>, n: int, t: real) {
    TimelyRun(events) && SweepsWait(events, n) && forall i :: 0 <= i < |events| ==> events[i].at <= t
  }

  lemma UntilNext(events: seq<Event>, n: int, t: real, e: Event)
    requires Until(events, n, t) && t <= e.at
    requires (e.Check? ==> e.created == e.at) && (e.Cleanup? ==> e.inactive >= n)
    ensures Until(events + [e], n, e.at)
  {
  }

  lemma {:induction false} SlotsUntil(events: seq<Event>, client: string, start: real, k: nat, n: int)
    requires Until(events, n, start)
    ensures Until(Slots(events, client, start, k), n, if k == 0 then start else SlotTime(start, k - 1))
    decreases k
  {
    if k > 0 {
      var t := SlotTime(start, k - 1);
      SlotsUntil(events, client, start, k - 1, n);
      SlotsAscend(start, if k > 1 then k - 2 else 0, k - 1);
      assert SlotTime(start, 0) == start;
      UntilNext(Slots(events, client, start, k - 1), n, if k == 1 then start else SlotTime(start, k - 2),
                Check(client, MCP, t, t));
    }
  }

  lemma TwoRoundsAreTimely(client: string, n: int)
    ensures TimelyRun(TwoRounds(client, n)) && SweepsWait(TwoRounds(client, n), n)
  {
    SlotsUntil([Update(10, 0.0)], client, 0.0, 85, n);
    EightMinutesOn(0.0);
    UntilNext(FirstRound(client), n, 480.0, Cleanup(n, SWEEP));
    SlotsUntil(FirstRound(client) + [Cleanup(n, SWEEP)], client, SWEEP, 86, n);
  }

  /** The program's limits hold for every client, group and time of every run in which they do not change
      and sweeps wait `n` seconds. */
  ghost predicate SafePeriod(n: int) {
    forall events, client, group, l, w, t ::
      TimelyRun(events) && SweepsWait(events, n) && ':' !in group
      && Fixed(INITIAL, events, group, l) && ProgramLimits(l)
      ==> Within(Admitted(INITIAL, events, client, group), w, t)
  }

  lemma LongPeriodIsSafe(n: int)
    requires n >= 2634
    ensures SafePeriod(n)
  {
    InitialWellFormed();
    forall events, client, group, l, w, t |
      TimelyRun(events) && SweepsWait(events, n) && ':' !in group
      && Fixed(INITIAL, events, group, l) && ProgramLimits(l)
      ensures Within(Admitted(INITIAL, events, client, group), w, t)
    {
      ProgramLongEnough(l, n);
      UnchangedLimitsHold(INITIAL, events, client, group, l, n, w, t);
    }
  }

  /** The exact period for limits that do not change: 2634 seconds, which the slowest limit an
      administrator can set needs. */
  lemma UnchangedLimitsHoldIffSweepsWait(n: int)
    ensures SafePeriod(n) <==> n >= 2634
  {
    if n >= 2634 {
      LongPeriodIsSafe(n);
    } else {
      ShorterSweepsBreakTheHour("", n);
      assert ':' !in MCP && ProgramLimits(LOW) by {
        assert LOW == McpLimits(10);
      }
    }
  }
}
