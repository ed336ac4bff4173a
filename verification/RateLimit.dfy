/** One rate-limit bucket of backend/app/middleware/rate_limit.py over its whole life: two sliding
    windows, a token bucket, and a collector that may delete it between any two requests.
 */
module RateBucket {
  import opened Common

  const MINUTE: real := 60.0
  const HOUR: real := 3600.0

  datatype Limits = Limits(perMinute: int, perHour: int, burst: int)

  datatype Bucket = Bucket(tokens: real, lastUpdate: real, minute: seq<real>, hour: seq<real>)

  datatype Decision = Decision(
    allowed: bool,
    remaining: int,
    remainingHour: int,
    retryAfter: Option<int>)

  // ---------------------------------------------------------------------------------------
  // Filtering timestamps
  // ---------------------------------------------------------------------------------------

  /** `[ts for ts in s if ts > cutoff]` */
  function Recent(s: seq<real>, cutoff: real): seq<real> {
    if s == [] then []
    else
      var n := |s| - 1;
      if s[n] > cutoff then Recent(s[..n], cutoff) + [s[n]] else Recent(s[..n], cutoff)
  }

  function Minimum(s: seq<real>): real
    requires s != []
  {
    if |s| == 1 then s[0] else MinReal(Minimum(s[..|s| - 1]), s[|s| - 1])
  }

  function Maximum(s: seq<real>): real
    requires s != []
  {
    if |s| == 1 then s[0]
    else
      var m := Maximum(s[..|s| - 1]);
      if s[|s| - 1] > m then s[|s| - 1] else m
  }

  lemma RecentSnoc(s: seq<real>, x: real, cutoff: real)
    ensures Recent(s + [x], cutoff) == if x > cutoff then Recent(s, cutoff) + [x] else Recent(s, cutoff)
  {
    assert (s + [x])[..|s|] == s;
  }

  /** Pruning twice is pruning once at the later cutoff. */
  lemma {:induction false} RecentTwice(s: seq<real>, cutoff: real, later: real)
    requires cutoff <= later
    ensures Recent(Recent(s, cutoff), later) == Recent(s, later)
    ensures |Recent(s, later)| <= |Recent(s, cutoff)| <= |s|
  {
    if s != [] {
      var n := |s| - 1;
      RecentTwice(s[..n], cutoff, later);
      if s[n] > cutoff {
        RecentSnoc(Recent(s[..n], cutoff), s[n], later);
      }
    }
  }

  lemma {:induction false} RecentAreRecent(s: seq<real>, cutoff: real)
    ensures forall x :: x in Recent(s, cutoff) <==> x in s && x > cutoff
  {
    if s != [] {
      var n := |s| - 1;
      RecentAreRecent(s[..n], cutoff);
      assert s == s[..n] + [s[n]];
    }
  }

  lemma {:induction false} MinimumIn(s: seq<real>)
    requires s != []
    ensures Minimum(s) in s
  {
    if |s| > 1 {
      MinimumIn(s[..|s| - 1]);
    }
  }

  // ---------------------------------------------------------------------------------------
  // One request, one sweep
  // ---------------------------------------------------------------------------------------

  /** A bucket the default dictionary creates on first use. */
  function NewBucket(created: real): Bucket {
    Bucket(10.0, created, [], [])
  }

  function Prune(b: Bucket, now: real): Bucket {
    b.(minute := Recent(b.minute, now - MINUTE), hour := Recent(b.hour, now - HOUR))
  }

  function RetryAfter(stamps: seq<real>, window: real, now: real): int {
    var oldest := if stamps != [] then Minimum(stamps) else now;
    Max(1, Truncate(window - (now - oldest)))
  }

  function Rate(l: Limits): real {
    l.perMinute as real / 60.0
  }

  /** Tokens that flow in between two points in time. */
  function Earned(l: Limits, since: real, now: real): real {
    (now - since) * Rate(l)
  }

  function Refill(l: Limits, b: Bucket, now: real): real {
    MinReal(l.burst as real, b.tokens + Earned(l, b.lastUpdate, now))
  }

  /** A request at `now`: the bucket afterwards and what the client is told. */
  function Use(l: Limits, b: Bucket, now: real): (Bucket, Decision) {
    var p := Prune(b, now);
    var minuteLeft, hourLeft := l.perMinute - |p.minute|, l.perHour - |p.hour|;
    var answer := Decision(false, Max(0, minuteLeft - 1), Max(0, hourLeft - 1), None);
    if minuteLeft <= 0 then (p, answer.(retryAfter := Some(RetryAfter(p.minute, MINUTE, now))))
    else if hourLeft <= 0 then (p, answer.(retryAfter := Some(RetryAfter(p.hour, HOUR, now))))
    else
      var tokens := Refill(l, p, now);
      if tokens < 1.0 then
        (p.(tokens := tokens, lastUpdate := now), answer.(retryAfter := Some(1)))
      else
        (Bucket(tokens - 1.0, now, p.minute + [now], p.hour + [now]), answer.(allowed := true))
  }

  /** What a request does to the timestamps ... */
  ghost predicate Stamps(l: Limits, b: Bucket, u: Bucket, allowed: bool, now: real) {
    var minute, hour := Recent(b.minute, now - MINUTE), Recent(b.hour, now - HOUR);
    if allowed then
      && u.minute == minute + [now] && |minute| < l.perMinute
      && u.hour == hour + [now] && |hour| < l.perHour
      && u.lastUpdate == now
    else u.minute == minute && u.hour == hour && (u.lastUpdate == b.lastUpdate || u.lastUpdate == now)
  }

  /** ... and to the tokens: nothing, or a refill and, if admitted, the price of one. */
  ghost predicate Spends(l: Limits, b: Bucket, u: Bucket, allowed: bool, now: real) {
    || (!allowed && u.tokens == b.tokens && u.lastUpdate == b.lastUpdate)
    || (!allowed && u.tokens == Refill(l, b, now) && u.lastUpdate == now)
    || (allowed && u.tokens == Refill(l, b, now) - 1.0 >= 0.0 && u.lastUpdate == now)
  }

  lemma UseEffect(l: Limits, b: Bucket, now: real)
    ensures var (u, d) := Use(l, b, now);
            Stamps(l, b, u, d.allowed, now) && Spends(l, b, u, d.allowed, now)
  {
  }

  /** The collector's test for a bucket nobody has used for a while. */
  predicate Inactive(b: Bucket, cutoff: real) {
    && b.lastUpdate < cutoff
    && ((b.minute == [] && b.hour == []) || (b.minute != [] && Maximum(b.minute) < cutoff))
  }

  /** What can happen to one bucket; `Other` is anything that concerns other buckets. */
  datatype Op =
    | Request(limits: Limits, created: real, at: real)
    | Sweep(inactive: int, at: real)
    | Other(at: real)

  function Touch(ob: Option<Bucket>, created: real): Bucket {
    if ob.Some? then ob.value else NewBucket(created)
  }

  function Step(ob: Option<Bucket>, op: Op): Option<Bucket> {
    match op
    case Request(l, created, now) => Some(Use(l, Touch(ob, created), now).0)
    case Sweep(inactive, now) =>
      if ob.Some? && Inactive(ob.value, now - inactive as real) then None else ob
    case Other(_) => ob
  }

  predicate Admits(ob: Option<Bucket>, op: Op) {
    op.Request? && Use(op.limits, Touch(ob, op.created), op.at).1.allowed
  }

  function Run(ops: seq<Op>): Option<Bucket> {
    if ops == [] then None else Step(Run(ops[..|ops| - 1]), ops[|ops| - 1])
  }

  datatype Admission = Admission(at: real, limits: Limits)

  /** The admitted requests of a run, in order. */
  function Admissions(ops: seq<Op>): seq<Admission> {
    if ops == [] then []
    else
      var before, op := ops[..|ops| - 1], ops[|ops| - 1];
      if Admits(Run(before), op) then Admissions(before) + [Admission(op.at, op.limits)]
      else Admissions(before)
  }

  function Times(adm: seq<Admission>): seq<real> {
    if adm == [] then [] else Times(adm[..|adm| - 1]) + [adm[|adm| - 1].at]
  }

  /** The admissions in the half-open window `(lo, hi]`. */
  function InWindow(adm: seq<Admission>, lo: real, hi: real): seq<Admission> {
    if adm == [] then []
    else
      var rest, last := InWindow(adm[..|adm| - 1], lo, hi), adm[|adm| - 1];
      if lo < last.at <= hi then rest + [last] else rest
  }

  // ---------------------------------------------------------------------------------------
  // Sliding windows over whole runs
  // ---------------------------------------------------------------------------------------

  /** The clock never goes back, and a bucket is created before the clock is read again. */
  ghost predicate Timely(ops: seq<Op>) {
    && (forall i, j :: 0 <= i < j < |ops| ==> ops[i].at <= ops[j].at)
    && (forall i :: 0 <= i < |ops| && ops[i].Request? ==> ops[i].created <= ops[i].at)
    && (forall i, j :: 0 <= i < j < |ops| && ops[j].Request? ==> ops[i].at <= ops[j].created)
  }

  /** The collector only removes buckets idle for at least `n` seconds. */
  ghost predicate Waits(ops: seq<Op>, n: int) {
    forall i :: 0 <= i < |ops| && ops[i].Sweep? ==> ops[i].inactive >= n
  }

  ghost predicate Legal(ops: seq<Op>) {
    Timely(ops) && Waits(ops, 3600)
  }

  ghost predicate AllUpTo(adm: seq<Admission>, t: real) {
    forall i :: 0 <= i < |adm| ==> adm[i].at <= t
  }

  lemma {:induction false} NothingRecent(adm: seq<Admission>, cutoff: real)
    requires AllUpTo(adm, cutoff)
    ensures Recent(Times(adm), cutoff) == []
    ensures forall hi :: InWindow(adm, cutoff, hi) == []
  {
    if adm != [] {
      NothingRecent(adm[..|adm| - 1], cutoff);
      RecentSnoc(Times(adm[..|adm| - 1]), adm[|adm| - 1].at, cutoff);
    }
  }

  lemma {:induction false} WindowWithinRecent(adm: seq<Admission>, lo: real, hi: real)
    ensures |InWindow(adm, lo, hi)| <= |Recent(Times(adm), lo)|
  {
    if adm != [] {
      WindowWithinRecent(adm[..|adm| - 1], lo, hi);
      RecentSnoc(Times(adm[..|adm| - 1]), adm[|adm| - 1].at, lo);
    }
  }

  /** At time `t` the timestamp lists know every admission that still counts, although they are
      pruned lazily and vanish when the bucket is collected. */
  ghost predicate Remembers(ob: Option<Bucket>, adm: seq<Admission>, t: real) {
    && AllUpTo(adm, t)
    && match ob
       case None => AllUpTo(adm, t - HOUR)
       case Some(b) =>
         && AllUpTo(adm, b.lastUpdate) && b.lastUpdate <= t
         && Recent(b.minute, t - MINUTE) == Recent(Times(adm), t - MINUTE)
         && Recent(b.hour, t - HOUR) == Recent(Times(adm), t - HOUR)
  }

  lemma SameLater(s: seq<real>, s': seq<real>, cutoff: real, later: real)
    requires Recent(s, cutoff) == Recent(s', cutoff) && cutoff <= later
    ensures Recent(s, later) == Recent(s', later)
  {
    RecentTwice(s, cutoff, later);
    RecentTwice(s', cutoff, later);
  }

  lemma RemembersLater(ob: Option<Bucket>, adm: seq<Admission>, t: real, now: real)
    requires Remembers(ob, adm, t) && t <= now
    ensures Remembers(ob, adm, now)
  {
    if ob.Some? {
      SameLater(ob.value.minute, Times(adm), t - MINUTE, now - MINUTE);
      SameLater(ob.value.hour, Times(adm), t - HOUR, now - HOUR);
    }
  }

  ghost function Extended(adm: seq<Admission>, a: Admission, allowed: bool): seq<Admission> {
    if allowed then adm + [a] else adm
  }

  lemma RequestRemembers(l: Limits, b: Bucket, u: Bucket, allowed: bool, adm: seq<Admission>, now: real)
    requires Stamps(l, b, u, allowed, now) && Remembers(Some(b), adm, now)
    ensures Remembers(Some(u), Extended(adm, Admission(now, l), allowed), now)
  {
    if allowed {
      AppendAgrees(b.minute, adm, Admission(now, l), now - MINUTE);
      AppendAgrees(b.hour, adm, Admission(now, l), now - HOUR);
    } else {
      RecentTwice(b.minute, now - MINUTE, now - MINUTE);
      RecentTwice(b.hour, now - HOUR, now - HOUR);
    }
  }

  lemma AppendAgrees(stamps: seq<real>, adm: seq<Admission>, a: Admission, cutoff: real)
    requires Recent(stamps, cutoff) == Recent(Times(adm), cutoff) && cutoff < a.at
    ensures Recent(Recent(stamps, cutoff) + [a.at], cutoff) == Recent(Times(adm + [a]), cutoff)
  {
    assert (adm + [a])[..|adm|] == adm;
    RecentTwice(stamps, cutoff, cutoff);
    RecentSnoc(Recent(stamps, cutoff), a.at, cutoff);
    RecentSnoc(Times(adm), a.at, cutoff);
  }

  lemma NewBucketRemembers(adm: seq<Admission>, created: real, now: real)
    requires Remembers(None, adm, now) && AllUpTo(adm, created) && created <= now
    ensures Remembers(Some(NewBucket(created)), adm, now)
  {
    NothingRecent(adm, now - HOUR);
    NothingRecent(adm, now - MINUTE);
  }

  ghost function End(ops: seq<Op>): real
    requires ops != []
  {
    ops[|ops| - 1].at
  }

  /** What an operation may assume about itself and what happened before. */
  ghost predicate LegalNext(adm: seq<Admission>, op: Op) {
    match op
    case Request(_, created, now) => created <= now && AllUpTo(adm, created)
    case Sweep(inactive, _) => inactive >= 3600
    case Other(_) => true
  }

  ghost function AdmissionsAfter(ob: Option<Bucket>, adm: seq<Admission>, op: Op): seq<Admission> {
    if op.Request? then Extended(adm, Admission(op.at, op.limits), Admits(ob, op)) else adm
  }

  /** The lists still remember after any operation. */
  lemma OpRemembers(ob: Option<Bucket>, adm: seq<Admission>, op: Op)
    requires LegalNext(adm, op) && Remembers(ob, adm, op.at)
    ensures Remembers(Step(ob, op), AdmissionsAfter(ob, adm, op), op.at)
  {
    if op.Request? {
      var b := Touch(ob, op.created);
      if ob.None? {
        NewBucketRemembers(adm, op.created, op.at);
      }
      UseEffect(op.limits, b, op.at);
      var (u, d) := Use(op.limits, b, op.at);
      assert Step(ob, op) == Some(u) && Admits(ob, op) == d.allowed;
      RequestRemembers(op.limits, b, u, d.allowed, adm, op.at);
    }
  }

  lemma LegalPrefix(ops: seq<Op>)
    requires ops != [] && Legal(ops)
    ensures Legal(ops[..|ops| - 1])
  {
  }

  /** What the last operation of a run finds. */
  lemma {:induction false} LastState(ops: seq<Op>)
    requires ops != [] && Legal(ops)
    ensures var before, op := ops[..|ops| - 1], ops[|ops| - 1];
            LegalNext(Admissions(before), op) && Remembers(Run(before), Admissions(before), op.at)
    decreases |ops|, 0
  {
    var before, op := ops[..|ops| - 1], ops[|ops| - 1];
    if before != [] {
      RunRemembers(before);
      assert End(before) == ops[|ops| - 2].at;
      RemembersLater(Run(before), Admissions(before), End(before), op.at);
    }
  }

  lemma {:induction false} RunRemembers(ops: seq<Op>)
    requires ops != [] && Legal(ops)
    ensures Remembers(Run(ops), Admissions(ops), End(ops))
    decreases |ops|, 1
  {
    LastState(ops);
    OpRemembers(Run(ops[..|ops| - 1]), Admissions(ops[..|ops| - 1]), ops[|ops| - 1]);
  }

  datatype Window = PerMinute | PerHour

  function Span(w: Window): real {
    if w == PerMinute then MINUTE else HOUR
  }

  function Allowance(l: Limits, w: Window): int {
    if w == PerMinute then l.perMinute else l.perHour
  }

  /** The last minute (hour) before `t` holds no more than the limits of its last admission allow. */
  ghost predicate Within(adm: seq<Admission>, w: Window, t: real) {
    Allowed(InWindow(adm, t - Span(w), t), w)
  }

  ghost predicate Allowed(inside: seq<Admission>, w: Window) {
    inside != [] ==> |inside| <= Allowance(inside[|inside| - 1].limits, w)
  }

  /** Never more than the limits: for every time `t`, the admissions of the last minute (hour)
      number at most what the limits in force at the last of them allow. */
  lemma {:induction false} SlidingWindows(ops: seq<Op>, w: Window, t: real)
    requires Legal(ops)
    ensures Within(Admissions(ops), w, t)
    decreases |ops|
  {
    if ops != [] {
      var before, op := ops[..|ops| - 1], ops[|ops| - 1];
      LegalPrefix(ops);
      SlidingWindows(before, w, t);
      if Admits(Run(before), op) {
        RoomForLast(ops, w);
        var adm, a := Admissions(before), Admission(op.at, op.limits);
        AdmissionFits(adm, a, w, t, Held(adm, a, w));
      }
    }
  }

  /** A request is admitted only if both windows have room for it. */
  lemma RoomForLast(ops: seq<Op>, w: Window)
    requires ops != [] && Legal(ops) && Admits(Run(ops[..|ops| - 1]), ops[|ops| - 1])
    ensures var adm, op := Admissions(ops[..|ops| - 1]), ops[|ops| - 1];
            Held(adm, Admission(op.at, op.limits), w) < Allowance(op.limits, w)
  {
    LastState(ops);
    RequestHasRoom(Run(ops[..|ops| - 1]), Admissions(ops[..|ops| - 1]), ops[|ops| - 1], w);
  }

  lemma RequestHasRoom(ob: Option<Bucket>, adm: seq<Admission>, op: Op, w: Window)
    requires LegalNext(adm, op) && Remembers(ob, adm, op.at) && Admits(ob, op)
    ensures Held(adm, Admission(op.at, op.limits), w) < Allowance(op.limits, w)
  {
    var b := Touch(ob, op.created);
    if ob.None? {
      NewBucketRemembers(adm, op.created, op.at);
    }
    UseEffect(op.limits, b, op.at);
    StampsLeaveRoom(op.limits, b, Use(op.limits, b, op.at).0, adm, op.at, w);
  }

  lemma StampsLeaveRoom(l: Limits, b: Bucket, u: Bucket, adm: seq<Admission>, now: real, w: Window)
    requires Stamps(l, b, u, true, now) && Remembers(Some(b), adm, now)
    ensures Held(adm, Admission(now, l), w) < Allowance(l, w)
  {
  }

  /** How many of the admissions so far the lists still hold when `a` comes. */
  ghost function Held(adm: seq<Admission>, a: Admission, w: Window): nat {
    |Recent(Times(adm), a.at - Span(w))|
  }

  lemma AdmissionFits(adm: seq<Admission>, a: Admission, w: Window, t: real, room: nat)
    requires room == Held(adm, a, w) < Allowance(a.limits, w)
    requires Within(adm, w, t)
    ensures Within(adm + [a], w, t)
  {
    if a.at <= t {
      WindowFits(adm, a, w, t);
    }
    OneMoreFits(adm, a, w, t - Span(w), t, room);
  }

  lemma OneMoreFits(adm: seq<Admission>, a: Admission, w: Window, lo: real, hi: real, room: nat)
    requires Allowed(InWindow(adm, lo, hi), w) && room < Allowance(a.limits, w)
    requires a.at <= hi ==> |InWindow(adm, lo, hi)| <= room
    ensures Allowed(InWindow(adm + [a], lo, hi), w)
  {
    assert (adm + [a])[..|adm|] == adm;
  }

  lemma WindowFits(adm: seq<Admission>, a: Admission, w: Window, t: real)
    requires a.at <= t
    ensures |InWindow(adm, t - Span(w), t)| <= Held(adm, a, w)
  {
    WindowWithinRecent(adm, t - Span(w), t);
    RecentTwice(Times(adm), a.at - Span(w), t - Span(w));
  }

  // ---------------------------------------------------------------------------------------
  // Token bucket over whole runs
  // ---------------------------------------------------------------------------------------

  ghost predicate OnlyLimits(ops: seq<Op>, l: Limits) {
    forall i :: 0 <= i < |ops| && ops[i].Request? ==> ops[i].limits == l
  }

  /** Limits that can fill a bucket at all; with any others nothing is ever admitted. */
  predicate Fillable(l: Limits) {
    l.perMinute >= 1 && l.burst >= 0
  }

  /** Tokens a request at `t` could spend; a missing bucket counts as a new one. */
  ghost function Available(l: Limits, ob: Option<Bucket>, t: real): real {
    match ob
    case None => MinReal(l.burst as real, 10.0)
    case Some(b) => Refill(l, b, t)
  }

  /** How many admissions happened at or after `s`. */
  ghost function CountFrom(adm: seq<Admission>, s: real): nat {
    if adm == [] then 0
    else CountFrom(adm[..|adm| - 1], s) + if s <= adm[|adm| - 1].at then 1 else 0
  }

  lemma CountSnoc(adm: seq<Admission>, a: Admission, s: real)
    ensures CountFrom(adm + [a], s) == CountFrom(adm, s) + if s <= a.at then 1 else 0
  {
    assert (adm + [a])[..|adm|] == adm;
  }

  lemma {:induction false} CountNone(adm: seq<Admission>, t: real, s: real)
    requires AllUpTo(adm, t) && t < s
    ensures CountFrom(adm, s) == 0
  {
    if adm != [] {
      CountNone(adm[..|adm| - 1], t, s);
    }
  }

  lemma EarnedAdds(l: Limits, a: real, b: real, c: real)
    ensures Earned(l, a, b) + Earned(l, b, c) == Earned(l, a, c)
  {
  }

  lemma EarnedNonNegative(l: Limits, a: real, b: real)
    requires Fillable(l) && a <= b
    ensures Earned(l, a, b) >= 0.0
  {
    assert Rate(l) >= 0.0;
  }

  lemma EarnedAtOnce(l: Limits, a: real)
    ensures Earned(l, a, a) == 0.0
  {
  }

  /** `n` idle seconds fill a bucket at least as much as a new one is. */
  predicate Refills(l: Limits, n: int) {
    Fillable(l) && n * l.perMinute >= 600
  }

  lemma IdleEarnsEnough(l: Limits, n: int, a: real, b: real)
    requires Refills(l, n) && b - a >= n as real
    ensures Earned(l, a, b) >= 10.0
  {
    var c := a + n as real;
    EarnedAdds(l, a, c, b);
    EarnedNonNegative(l, c, b);
    assert Earned(l, a, c) == n as real * (l.perMinute as real / 60.0) == (n * l.perMinute) as real / 60.0;
  }

  /** The bucket's tokens are never negative. */
  ghost predicate Solvent(ob: Option<Bucket>, t: real) {
    ob.Some? ==> ob.value.tokens >= 0.0 && ob.value.lastUpdate <= t
  }

  /** Spent and available tokens since `s` are covered by one burst plus the refill since `s`. */
  ghost predicate Covered(l: Limits, ob: Option<Bucket>, spent: int, s: real, t: real) {
    spent as real + Available(l, ob, t) <= l.burst as real + Earned(l, s, t)
  }

  lemma RefillGrows(l: Limits, b: Bucket, t: real, now: real)
    requires t <= now && Fillable(l)
    ensures Refill(l, b, t) <= Refill(l, b, now) <= Refill(l, b, t) + Earned(l, t, now)
  {
    EarnedAdds(l, b.lastUpdate, t, now);
    EarnedNonNegative(l, t, now);
  }

  lemma CoveredLater(l: Limits, ob: Option<Bucket>, spent: int, s: real, t: real, now: real)
    requires Covered(l, ob, spent, s, t) && t <= now && Fillable(l)
    ensures Covered(l, ob, spent, s, now)
  {
    EarnedAdds(l, s, t, now);
    EarnedNonNegative(l, t, now);
    if ob.Some? {
      RefillGrows(l, ob.value, t, now);
    }
  }

  /** A request spends exactly what it uses up. */
  lemma RequestSpends(l: Limits, b: Bucket, u: Bucket, allowed: bool, now: real)
    requires Spends(l, b, u, allowed, now) && Fillable(l)
    requires b.tokens >= 0.0 && b.lastUpdate <= now
    ensures u.tokens >= 0.0 && u.lastUpdate <= now
    ensures Refill(l, u, now) == Refill(l, b, now) - if allowed then 1.0 else 0.0
  {
    EarnedNonNegative(l, b.lastUpdate, now);
    EarnedAtOnce(l, now);
  }

  /** The bucket as a request finds it, new or not. */
  lemma RequestFinds(l: Limits, ob: Option<Bucket>, op: Op, spent: int, s: real)
    requires op.Request? && op.created <= op.at && s <= op.at && Fillable(l)
    requires Solvent(ob, op.created)
    requires if s <= op.created then Covered(l, ob, spent, s, op.created) else spent == 0
    ensures var b := Some(Touch(ob, op.created));
            Solvent(b, op.at) && Covered(l, b, spent, s, op.at)
  {
    var b := Some(Touch(ob, op.created));
    if s <= op.created {
      EarnedAtOnce(l, op.created);
      assert Covered(l, b, spent, s, op.created);
      CoveredLater(l, b, spent, s, op.created, op.at);
    } else {
      NothingCovered(l, b, s, op.at);
    }
  }

  lemma RequestCovered(l: Limits, ob: Option<Bucket>, op: Op, spent: int, s: real)
    requires op.Request? && op.limits == l && Fillable(l)
    requires var b := Some(Touch(ob, op.created));
             Solvent(b, op.at) && Covered(l, b, spent, s, op.at)
    ensures Solvent(Step(ob, op), op.at)
    ensures Covered(l, Step(ob, op), if Admits(ob, op) then spent + 1 else spent, s, op.at)
  {
    var b := Touch(ob, op.created);
    UseEffect(l, b, op.at);
    var (u, d) := Use(l, b, op.at);
    assert Step(ob, op) == Some(u) && Admits(ob, op) == d.allowed;
    RequestSpends(l, b, u, d.allowed, op.at);
  }

  /** A collected bucket had refilled to more than a new one holds, so forgetting it gives nothing
      away. */
  lemma SweepCovered(l: Limits, ob: Option<Bucket>, op: Op, spent: int, s: real, n: int)
    requires op.Sweep? && op.inactive >= n
    requires Refills(l, n) && Solvent(ob, op.at) && Covered(l, ob, spent, s, op.at)
    ensures Solvent(Step(ob, op), op.at) && Covered(l, Step(ob, op), spent, s, op.at)
  {
    if Step(ob, op) != ob {
      IdleEarnsEnough(l, n, ob.value.lastUpdate, op.at);
    }
  }

  lemma {:induction false} AdmissionsUpTo(ops: seq<Op>)
    requires ops != [] && Timely(ops)
    ensures AllUpTo(Admissions(ops), End(ops))
    decreases |ops|
  {
    if |ops| > 1 {
      AdmissionsUpTo(ops[..|ops| - 1]);
    } else {
      assert ops[..0] == [];
    }
  }

  lemma {:induction false} RunCovered(ops: seq<Op>, l: Limits, s: real, n: int)
    requires ops != [] && Timely(ops) && Waits(ops, n) && OnlyLimits(ops, l) && Refills(l, n) && s <= End(ops)
    ensures Solvent(Run(ops), End(ops))
    ensures Covered(l, Run(ops), CountFrom(Admissions(ops), s), s, End(ops))
    decreases |ops|, 1
  {
    var before, op := ops[..|ops| - 1], ops[|ops| - 1];
    var adm, ob := Admissions(before), Run(before);
    match op {
      case Request(_, created, _) =>
        CoveredBefore(ops, l, s, created, n);
        RequestFinds(l, ob, op, CountFrom(adm, s), s);
        RequestCovered(l, ob, op, CountFrom(adm, s), s);
        CountSnoc(adm, Admission(op.at, op.limits), s);
      case Sweep(_, at) =>
        CoveredBefore(ops, l, s, at, n);
        SweepCovered(l, ob, op, CountFrom(adm, s), s, n);
      case Other(at) => CoveredBefore(ops, l, s, at, n);
    }
  }

  /** The bucket at any time `t` after the last but one operation. */
  lemma {:induction false} CoveredBefore(ops: seq<Op>, l: Limits, s: real, t: real, n: int)
    requires ops != [] && Timely(ops) && Waits(ops, n) && OnlyLimits(ops, l) && Refills(l, n)
    requires forall i :: 0 <= i < |ops| - 1 ==> ops[i].at <= t
    ensures var before := ops[..|ops| - 1];
            && Solvent(Run(before), t)
            && (if s <= t then Covered(l, Run(before), CountFrom(Admissions(before), s), s, t)
                else CountFrom(Admissions(before), s) == 0)
    decreases |ops|, 0
  {
    var before := ops[..|ops| - 1];
    if before == [] {
      if s <= t {
        NothingCovered(l, None, s, t);
      }
    } else {
      var last := End(before);
      assert last == ops[|ops| - 2].at;
      RunCovered(before, l, if s <= last then s else last, n);
      if s <= last {
        CoveredLater(l, Run(before), CountFrom(Admissions(before), s), s, last, t);
      } else {
        AdmissionsUpTo(before);
        CountNone(Admissions(before), last, s);
        if s <= t {
          NothingCovered(l, Run(before), s, t);
        }
      }
    }
  }

  lemma NothingCovered(l: Limits, ob: Option<Bucket>, s: real, now: real)
    requires Fillable(l) && s <= now
    ensures Covered(l, ob, 0, s, now)
  {
    EarnedNonNegative(l, s, now);
    if ob.Some? {
      assert Refill(l, ob.value, now) <= l.burst as real;
    }
  }

  /** How many admissions fall into the closed interval `[s, t]`. */
  ghost function CountBetween(adm: seq<Admission>, s: real, t: real): nat {
    if adm == [] then 0
    else CountBetween(adm[..|adm| - 1], s, t) + if s <= adm[|adm| - 1].at <= t then 1 else 0
  }

  lemma {:induction false} CountBetweenFrom(adm: seq<Admission>, s: real, t: real)
    requires AllUpTo(adm, t)
    ensures CountBetween(adm, s, t) == CountFrom(adm, s)
  {
    if adm != [] {
      CountBetweenFrom(adm[..|adm| - 1], s, t);
    }
  }

  /** In any interval the bucket admits at most a burst plus what the interval refills, if it is only
      collected after an idle time that refills what a new one holds. */
  lemma {:induction false} TokenBound(ops: seq<Op>, l: Limits, s: real, t: real, n: int)
    requires Timely(ops) && Waits(ops, n) && OnlyLimits(ops, l) && Refills(l, n) && s <= t
    ensures CountBetween(Admissions(ops), s, t) as real <= l.burst as real + Earned(l, s, t)
    decreases |ops|
  {
    if ops == [] {
      EarnedNonNegative(l, s, t);
    } else {
      var before, op := ops[..|ops| - 1], ops[|ops| - 1];
      TokenBound(before, l, s, t, n);
      if Admits(Run(before), op) && s <= op.at <= t {
        AdmissionsUpTo(ops);
        CountBetweenFrom(Admissions(ops), s, t);
        RunCovered(ops, l, s, n);
        AfterAdmission(ops, l);
        SpentWithin(l, Run(ops), CountFrom(Admissions(ops), s), s, op.at, t);
      } else if Admits(Run(before), op) {
        CountBetweenSnoc(Admissions(before), Admission(op.at, op.limits), s, t);
      }
    }
  }

  lemma CountBetweenSnoc(adm: seq<Admission>, a: Admission, s: real, t: real)
    requires a.at < s || a.at > t
    ensures CountBetween(adm + [a], s, t) == CountBetween(adm, s, t)
  {
    assert (adm + [a])[..|adm|] == adm;
  }

  lemma AfterAdmission(ops: seq<Op>, l: Limits)
    requires ops != [] && Admits(Run(ops[..|ops| - 1]), ops[|ops| - 1])
    ensures Run(ops).Some? && Run(ops).value.lastUpdate == End(ops)
  {
  }

  lemma SpentWithin(l: Limits, ob: Option<Bucket>, spent: int, s: real, now: real, t: real)
    requires Covered(l, ob, spent, s, now) && Solvent(ob, now) && Fillable(l) && now <= t
    requires ob.Some? && ob.value.lastUpdate == now
    ensures spent as real <= l.burst as real + Earned(l, s, t)
  {
    EarnedAtOnce(l, now);
    EarnedAdds(l, s, now, t);
    EarnedNonNegative(l, now, t);
  }

  /** A non-positive limit, or a non-positive burst, admits nothing at all. */
  lemma {:induction false} NothingWithoutLimit(ops: seq<Op>, l: Limits)
    requires OnlyLimits(ops, l) && (l.perMinute <= 0 || l.perHour <= 0 || l.burst <= 0)
    ensures Admissions(ops) == []
    decreases |ops|
  {
    if ops != [] {
      NothingWithoutLimit(ops[..|ops| - 1], l);
    }
  }

  // ---------------------------------------------------------------------------------------
  // What the client is told is left
  // ---------------------------------------------------------------------------------------

  function Left(l: Limits, adm: seq<Admission>, w: Window, now: real): int {
    Allowance(l, w) - |Recent(Times(adm), now - Span(w))|
  }

  /** After the admissions `adm`, the last request among them, an admitted request is told exactly how
      many more its minute and its hour have room for; a refused one is told one less, where there is
      one. */
  ghost predicate ToldWhatIsLeft(d: Decision, l: Limits, adm: seq<Admission>, now: real) {
    var minute, hour := Left(l, adm, PerMinute, now), Left(l, adm, PerHour, now);
    if d.allowed then d.remaining == minute && d.remainingHour == hour
    else d.remaining == Max(0, minute - 1) && d.remainingHour == Max(0, hour - 1)
  }

  /** That holds of every request in every run. */
  lemma RemainingIsLeft(ops: seq<Op>)
    requires ops != [] && Legal(ops) && ops[|ops| - 1].Request?
    ensures var before, op := ops[..|ops| - 1], ops[|ops| - 1];
            var d := Use(op.limits, Touch(Run(before), op.created), op.at).1;
            ToldWhatIsLeft(d, op.limits, Admissions(ops), op.at)
  {
    var before, op := ops[..|ops| - 1], ops[|ops| - 1];
    var ob, adm, b := Run(before), Admissions(before), Touch(Run(before), op.created);
    assert Remembers(Some(b), adm, op.at) by {
      LastState(ops);
      if ob.None? {
        NewBucketRemembers(adm, op.created, op.at);
      }
    }
    RemainingOf(op.limits, b, adm, op.at);
    assert Admissions(ops) == Extended(adm, Admission(op.at, op.limits), Use(op.limits, b, op.at).1.allowed);
  }

  lemma RemainingOf(l: Limits, b: Bucket, adm: seq<Admission>, now: real)
    requires Remembers(Some(b), adm, now)
    ensures var d := Use(l, b, now).1;
            ToldWhatIsLeft(d, l, Extended(adm, Admission(now, l), d.allowed), now)
  {
    RemainingCounts(l, b, now);
    LeftAfter(l, adm, PerMinute, now);
    LeftAfter(l, adm, PerHour, now);
  }

  lemma RemainingCounts(l: Limits, b: Bucket, now: real)
    ensures var d := Use(l, b, now).1;
            var minute, hour := |Recent(b.minute, now - MINUTE)|, |Recent(b.hour, now - HOUR)|;
            && d.remaining == Max(0, l.perMinute - minute - 1) && d.remainingHour == Max(0, l.perHour - hour - 1)
            && (d.allowed ==> minute < l.perMinute && hour < l.perHour)
  {
  }

  lemma LeftAfter(l: Limits, adm: seq<Admission>, w: Window, now: real)
    ensures Left(l, adm + [Admission(now, l)], w, now) == Left(l, adm, w, now) - 1
  {
    assert (adm + [Admission(now, l)])[..|adm|] == adm;
    RecentSnoc(Times(adm), now, now - Span(w));
  }

  // ---------------------------------------------------------------------------------------
  // Which buckets the collector takes
  // ---------------------------------------------------------------------------------------

  /** No timestamp is newer than the last update. */
  ghost predicate Dated(ob: Option<Bucket>, t: real) {
    ob.Some? ==> ob.value.lastUpdate <= t && forall x :: x in ob.value.minute ==> x <= ob.value.lastUpdate
  }

  lemma RequestDates(l: Limits, b: Bucket, now: real)
    requires Dated(Some(b), now)
    ensures Dated(Some(Use(l, b, now).0), now)
  {
    UseEffect(l, b, now);
    RecentAreRecent(b.minute, now - MINUTE);
  }

  lemma {:induction false} RunIsDated(ops: seq<Op>, t: real)
    requires Timely(ops) && forall i :: 0 <= i < |ops| ==> ops[i].at <= t
    ensures Dated(Run(ops), t)
    decreases |ops|
  {
    if ops != [] {
      var before, op := ops[..|ops| - 1], ops[|ops| - 1];
      RunIsDated(before, if op.Request? then op.created else op.at);
      if op.Request? {
        RequestDates(op.limits, Touch(Run(before), op.created), op.at);
      }
    }
  }

  lemma {:induction false} MaximumIn(s: seq<real>)
    requires s != []
    ensures Maximum(s) in s
  {
    if |s| > 1 {
      MaximumIn(s[..|s| - 1]);
    }
  }

  /** In every run, a sweep takes a bucket not updated since the cutoff if and only if its minute list
      is not empty or its hour list is: a bucket whose minute list was pruned empty by a refusal,
      while its hour list was not, stays however long it is idle. */
  lemma {:induction false} SweepTakes(ops: seq<Op>, inactive: int, now: real)
    requires Timely(ops) && (forall i :: 0 <= i < |ops| ==> ops[i].at <= now) && Run(ops).Some?
    ensures var b := Run(ops).value;
            Step(Run(ops), Sweep(inactive, now)) == None
            <==> b.lastUpdate < now - inactive as real && (b.minute != [] || b.hour == [])
  {
    RunIsDated(ops, now);
    if Run(ops).value.minute != [] {
      MaximumIn(Run(ops).value.minute);
    }
  }
}
