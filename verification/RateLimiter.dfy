/** The rate limiter of backend/app/middleware/rate_limit.py: path configuration, bucket keys and
    the table of buckets.
 */
module RateLimiting {
  import opened Common
  import opened RateBucket

  // ---------------------------------------------------------------------------------------
  // Configuration
  // ---------------------------------------------------------------------------------------

  /** The path table is a Python dict: ordered, with distinct prefixes. */
  datatype Config = Config(paths: seq<(string, Limits)>, fallback: Limits)

  const DEFAULT_GROUP: string := "default"
  const MCP: string := "/mcp"

  const INITIAL := Config(
    [("/health", Limits(30, 600, 10)),
     ("/mcp/health", Limits(30, 600, 10)),
     ("/api/tools/", Limits(60, 1000, 15)),
     (MCP, Limits(300, 5000, 30))],
    Limits(100, 2000, 20))

  /** The first entry, from `i` on, whose prefix starts the path. */
  function MatchFrom(paths: seq<(string, Limits)>, path: string, i: nat): (m: Option<nat>)
    requires i <= |paths|
    ensures m.Some? ==> i <= m.value < |paths| && paths[m.value].0 <= path
    ensures forall j :: i <= j < (if m.Some? then m.value else |paths|) ==> !(paths[j].0 <= path)
    decreases |paths| - i
  {
    if i == |paths| then None
    else if paths[i].0 <= path then Some(i)
    else MatchFrom(paths, path, i + 1)
  }

  function ConfigFor(c: Config, path: string): Limits {
    var m := MatchFrom(c.paths, path, 0);
    if m.Some? then c.paths[m.value].1 else c.fallback
  }

  function Group(c: Config, path: string): string {
    var m := MatchFrom(c.paths, path, 0);
    if m.Some? then c.paths[m.value].0 else DEFAULT_GROUP
  }

  function Key(client: string, group: string): string {
    client + ":" + group
  }

  /** Python's `//` by ten. */
  function FloorTenth(n: int): int {
    n / 10
  }

  function McpLimits(perMinute: int): Limits {
    Limits(perMinute, perMinute * 17, Max(5, FloorTenth(perMinute)))
  }

  /** Assigning to a dict key keeps its place, or appends a new one. */
  function Assign(paths: seq<(string, Limits)>, prefix: string, l: Limits): seq<(string, Limits)> {
    if paths == [] then [(prefix, l)]
    else if paths[0].0 == prefix then [(prefix, l)] + paths[1..]
    else [paths[0]] + Assign(paths[1..], prefix, l)
  }

  function UpdateMcp(c: Config, perMinute: int): Config {
    c.(paths := Assign(c.paths, MCP, McpLimits(perMinute)))
  }

  // ---------------------------------------------------------------------------------------
  // Keys identify a client and a path group
  // ---------------------------------------------------------------------------------------

  ghost predicate WellFormed(c: Config) {
    && (forall i, j :: 0 <= i < j < |c.paths| ==> c.paths[i].0 != c.paths[j].0)
    && (forall i :: 0 <= i < |c.paths| ==> ':' !in c.paths[i].0 && c.paths[i].0 != DEFAULT_GROUP)
  }

  lemma InitialWellFormed()
    ensures WellFormed(INITIAL)
  {
    assert INITIAL.paths[0].0[1] == 'h' && INITIAL.paths[1].0[1] == 'm' && INITIAL.paths[2].0[1] == 'a';
    assert INITIAL.paths[3].0 == MCP && |INITIAL.paths[1].0| == 11;
  }

  lemma {:induction false} AssignEntries(paths: seq<(string, Limits)>, prefix: string, l: Limits)
    ensures var a := Assign(paths, prefix, l);
            && |paths| <= |a| <= |paths| + 1
            && (forall i :: 0 <= i < |paths| ==> a[i].0 == paths[i].0)
            && (forall i :: 0 <= i < |a| ==>
                  || (i < |paths| && a[i] == paths[i])
                  || a[i] == (prefix, l))
            && (|a| > |paths| ==> forall i :: 0 <= i < |paths| ==> paths[i].0 != prefix)
    decreases |paths|
  {
    if paths != [] && paths[0].0 != prefix {
      AssignEntries(paths[1..], prefix, l);
    }
  }

  lemma UpdateWellFormed(c: Config, perMinute: int)
    requires WellFormed(c)
    ensures WellFormed(UpdateMcp(c, perMinute))
  {
    AssignEntries(c.paths, MCP, McpLimits(perMinute));
  }

  /** What an administrator's one number stands for: seventeen minutes' worth an hour, and a burst of a
      tenth of it, rounded down, but five at least. */
  lemma McpLimitsMean(perMinute: int)
    ensures var l := McpLimits(perMinute);
            && l.perMinute == perMinute && l.perHour == 17 * perMinute
            && l.burst >= 5 && perMinute < 10 * (l.burst + 1) && (l.burst > 5 ==> 10 * l.burst <= perMinute)
  {
  }

  lemma GroupHasNoColon(c: Config, path: string)
    requires WellFormed(c)
    ensures ':' !in Group(c, path)
  {
  }

  lemma ShorterClientLeavesColon(client: string, group: string, client': string, group': string)
    requires Key(client, group) == Key(client', group') && |client| < |client'|
    ensures ':' in group
  {
    assert Key(client', group')[|client'|] == ':';
    assert group[|client'| - |client| - 1] == Key(client, group)[|client'|];
  }

  /** The client address may contain colons (IPv6), yet a key determines address and group: the
      group is what follows the last colon. */
  lemma KeyIdentifies(client: string, group: string, client': string, group': string)
    requires ':' !in group && ':' !in group'
    requires Key(client, group) == Key(client', group')
    ensures client == client' && group == group'
  {
    var k := Key(client, group);
    if |client| < |client'| {
      ShorterClientLeavesColon(client, group, client', group');
    } else if |client'| < |client| {
      ShorterClientLeavesColon(client', group', client, group);
    }
    assert k[..|client|] == client && k[..|client'|] == client';
    assert k[|client| + 1..] == group && k[|client'| + 1..] == group';
  }

  /** Requests that share a bucket are judged by the same limits: the two loops that look up the
      configuration and the key agree. */
  lemma GroupDeterminesLimits(c: Config, path: string, path': string)
    requires WellFormed(c) && Group(c, path) == Group(c, path')
    ensures ConfigFor(c, path) == ConfigFor(c, path')
  {
    var m, m' := MatchFrom(c.paths, path, 0), MatchFrom(c.paths, path', 0);
    if m.Some? && m'.Some? {
      assert m.value == m'.value;
    }
  }

  // ---------------------------------------------------------------------------------------
  // The limiter as a state machine
  // ---------------------------------------------------------------------------------------

  datatype Limiter = Limiter(config: Config, buckets: map<string, Bucket>)

  datatype Event =
    | Check(client: string, path: string, created: real, at: real)
    | Cleanup(inactive: int, at: real)
    | Update(perMinute: int, at: real)

  function KeyFor(c: Config, client: string, path: string): string {
    Key(client, Group(c, path))
  }

  function BucketAt(buckets: map<string, Bucket>, key: string): Option<Bucket> {
    if key in buckets then Some(buckets[key]) else None
  }

  function CheckLimit(s: Limiter, client: string, path: string, created: real, now: real): (Limiter, Decision) {
    var key := KeyFor(s.config, client, path);
    var (b, d) := Use(ConfigFor(s.config, path), Touch(BucketAt(s.buckets, key), created), now);
    (s.(buckets := s.buckets[key := b]), d)
  }

  function Swept(buckets: map<string, Bucket>, cutoff: real): map<string, Bucket> {
    map k | k in buckets && !Inactive(buckets[k], cutoff) :: buckets[k]
  }

  function Next(s: Limiter, e: Event): Limiter {
    match e
    case Check(client, path, created, now) => CheckLimit(s, client, path, created, now).0
    case Cleanup(inactive, now) => s.(buckets := Swept(s.buckets, now - inactive as real))
    case Update(perMinute, _) => s.(config := UpdateMcp(s.config, perMinute))
  }

  function After(c: Config, events: seq<Event>): Limiter {
    if events == [] then Limiter(c, map[])
    else Next(After(c, events[..|events| - 1]), events[|events| - 1])
  }

  class RateLimiter {
    var buckets: map<string, Bucket>
    var paths: seq<(string, Limits)>
    const fallback: Limits

    ghost function Value(): Limiter
      reads this
    {
      Limiter(Config(paths, fallback), buckets)
    }

    constructor ()
      ensures Value() == After(INITIAL, [])
    {
      buckets := map[];
      paths, fallback := INITIAL.paths, INITIAL.fallback;
    }

    method GetConfigForPath(path: string) returns (l: Limits)
      ensures l == ConfigFor(Value().config, path)
    {
      var i := 0;
      while i < |paths|
        invariant 0 <= i <= |paths|
        invariant MatchFrom(paths, path, 0) == MatchFrom(paths, path, i)
      {
        if paths[i].0 <= path {
          return paths[i].1;
        }
        i := i + 1;
      }
      return fallback;
    }

    method GetBucketKey(client: string, path: string) returns (key: string)
      ensures key == KeyFor(Value().config, client, path)
    {
      var i := 0;
      while i < |paths|
        invariant 0 <= i <= |paths|
        invariant MatchFrom(paths, path, 0) == MatchFrom(paths, path, i)
      {
        if paths[i].0 <= path {
          return client + ":" + paths[i].0;
        }
        i := i + 1;
      }
      return client + ":" + DEFAULT_GROUP;
    }

    method UpdateMcpConfig(perMinute: int)
      modifies this
      ensures Value() == Next(old(Value()), Update(perMinute, 0.0))
    {
      paths := Assign(paths, MCP, Limits(perMinute, perMinute * 17, Max(5, perMinute / 10)));
    }

    /** The judgement on one bucket, taken out of `CheckRateLimit`. */
    static method Judge(limits: Limits, found: Bucket, now: real) returns (bucket: Bucket, d: Decision)
      ensures (bucket, d) == Use(limits, found, now)
    {
      bucket := found.(minute := Recent(found.minute, now - MINUTE));
      bucket := bucket.(hour := Recent(bucket.hour, now - HOUR));
      var minuteRemaining := limits.perMinute - |bucket.minute|;
      var hourRemaining := limits.perHour - |bucket.hour|;
      d := Decision(false, Max(0, minuteRemaining - 1), Max(0, hourRemaining - 1), None);

      if minuteRemaining <= 0 {
        var oldest := if bucket.minute != [] then Minimum(bucket.minute) else now;
        d := d.(retryAfter := Some(Max(1, Truncate(MINUTE - (now - oldest)))));
        return;
      }
      if hourRemaining <= 0 {
        var oldest := if bucket.hour != [] then Minimum(bucket.hour) else now;
        d := d.(retryAfter := Some(Max(1, Truncate(HOUR - (now - oldest)))));
        return;
      }

      var elapsed := now - bucket.lastUpdate;
      var refillRate := limits.perMinute as real / 60.0;
      var earned := elapsed * refillRate;
      assert earned == Earned(limits, found.lastUpdate, now);
      bucket := bucket.(tokens := MinReal(limits.burst as real, bucket.tokens + earned));
      bucket := bucket.(lastUpdate := now);
      if bucket.tokens < 1.0 {
        d := d.(retryAfter := Some(1));
        return;
      }
      bucket := bucket.(tokens := bucket.tokens - 1.0);
      bucket := bucket.(minute := bucket.minute + [now], hour := bucket.hour + [now]);
      d := d.(allowed := true);
    }

    /** `created` is when the default dictionary would stamp a new bucket, `now` the reading right
        after it. */
    method CheckRateLimit(client: string, path: string, created: real, now: real) returns (d: Decision)
      modifies this
      ensures (Value(), d) == CheckLimit(old(Value()), client, path, created, now)
    {
      var limits := GetConfigForPath(path);
      var key := GetBucketKey(client, path);
      if key !in buckets {
        buckets := buckets[key := NewBucket(created)];
      }
      var bucket;
      bucket, d := Judge(limits, buckets[key], now);
      buckets := buckets[key := bucket];
      assert buckets == old(buckets)[key := bucket];
    }

    method CleanupInactiveBuckets(inactive: int, now: real) returns (removed: nat)
      modifies this
      ensures Value() == Next(old(Value()), Cleanup(inactive, now))
      ensures removed == |old(buckets)| - |buckets|
    {
      var cutoff := now - inactive as real;
      var keysToRemove: set<string> := {};
      var todo := buckets.Keys;
      while todo != {}
        invariant Value() == old(Value())
        invariant keysToRemove <= buckets.Keys - todo && todo <= buckets.Keys
        invariant forall k :: k in buckets && k !in todo ==> (k in keysToRemove <==> Inactive(buckets[k], cutoff))
        decreases |todo|
      {
        var key :| key in todo;
        var remove := IsInactive(buckets[key], cutoff);
        todo := todo - {key};
        if remove {
          keysToRemove := keysToRemove + {key};
        }
      }
      var kept := buckets - keysToRemove;
      SweptRemoves(buckets, keysToRemove, kept, cutoff);
      removed := |keysToRemove|;
      buckets := kept;
    }

    static method IsInactive(bucket: Bucket, cutoff: real) returns (inactive: bool)
      ensures inactive <==> Inactive(bucket, cutoff)
    {
      inactive := false;
      if bucket.lastUpdate < cutoff {
        if bucket.minute == [] && bucket.hour == [] {
          inactive := true;
        } else if bucket.minute != [] && Maximum(bucket.minute) < cutoff {
          inactive := true;
        }
      }
    }
  }

  lemma SweptRemoves(buckets: map<string, Bucket>, remove: set<string>, kept: map<string, Bucket>, cutoff: real)
    requires remove <= buckets.Keys && kept == buckets - remove
    requires forall k :: k in buckets ==> (k in remove <==> Inactive(buckets[k], cutoff))
    ensures kept == Swept(buckets, cutoff) && |remove| == |buckets| - |kept|
  {
    assert kept.Keys == buckets.Keys - remove;
  }

  // ---------------------------------------------------------------------------------------
  // Every bucket lives the life of a single bucket
  // ---------------------------------------------------------------------------------------

  /** What an event means for the bucket under `key`. */
  ghost function View(s: Limiter, e: Event, key: string): Op {
    match e
    case Check(client, path, created, now) =>
      if KeyFor(s.config, client, path) == key then Request(ConfigFor(s.config, path), created, now)
      else Other(now)
    case Cleanup(inactive, now) => Sweep(inactive, now)
    case Update(_, now) => Other(now)
  }

  ghost function Views(c: Config, events: seq<Event>, key: string): seq<Op> {
    if events == [] then []
    else
      var before, e := events[..|events| - 1], events[|events| - 1];
      Views(c, before, key) + [View(After(c, before), e, key)]
  }

  /** The requests of one client to one path group that the limiter let through. */
  ghost function Admitted(c: Config, events: seq<Event>, client: string, group: string): seq<Admission> {
    if events == [] then []
    else
      var before, e := events[..|events| - 1], events[|events| - 1];
      var s, rest := After(c, before), Admitted(c, before, client, group);
      if e.Check? && e.client == client && Group(s.config, e.path) == group
         && CheckLimit(s, client, e.path, e.created, e.at).1.allowed
      then rest + [Admission(e.at, ConfigFor(s.config, e.path))]
      else rest
  }

  /** The clock never goes back, and buckets are created before the clock is read again. */
  ghost predicate TimelyRun(events: seq<Event>) {
    && (forall i, j :: 0 <= i < j < |events| ==> events[i].at <= events[j].at)
    && (forall i :: 0 <= i < |events| && events[i].Check? ==> events[i].created <= events[i].at)
    && (forall i, j :: 0 <= i < j < |events| && events[j].Check? ==> events[i].at <= events[j].created)
  }

  /** Sweeps only take buckets idle for at least `n` seconds. */
  ghost predicate SweepsWait(events: seq<Event>, n: int) {
    forall i :: 0 <= i < |events| && events[i].Cleanup? ==> events[i].inactive >= n
  }

  ghost predicate LegalRun(events: seq<Event>) {
    TimelyRun(events) && SweepsWait(events, 3600)
  }

  lemma {:induction false} ConfigStaysWellFormed(c: Config, events: seq<Event>)
    requires WellFormed(c)
    ensures WellFormed(After(c, events).config)
    decreases |events|
  {
    if events != [] {
      var before := events[..|events| - 1];
      ConfigStaysWellFormed(c, before);
      if events[|events| - 1].Update? {
        UpdateWellFormed(After(c, before).config, events[|events| - 1].perMinute);
      }
    }
  }

  /** The `i`-th view keeps the times and the idle period of the `i`-th event. */
  ghost predicate Mirrors(op: Op, e: Event) {
    && op.at == e.at
    && (op.Request? ==> e.Check? && op.created == e.created)
    && (op.Sweep? ==> e.Cleanup? && op.inactive == e.inactive)
  }

  lemma {:induction false} ViewsMirrorEvents(c: Config, events: seq<Event>, key: string)
    ensures |Views(c, events, key)| == |events|
    ensures forall i :: 0 <= i < |events| ==> Mirrors(Views(c, events, key)[i], events[i])
    decreases |events|
  {
    if events != [] {
      var before := events[..|events| - 1];
      ViewsMirrorEvents(c, before, key);
      var op, e := View(After(c, before), events[|before|], key), events[|before|];
      MirrorsOneMore(Views(c, before, key), before, op, e);
      assert events == before + [e];
    }
  }

  lemma MirrorsOneMore(ops: seq<Op>, events: seq<Event>, op: Op, e: Event)
    requires |ops| == |events| && forall i :: 0 <= i < |events| ==> Mirrors(ops[i], events[i])
    requires Mirrors(op, e)
    ensures forall i :: 0 <= i < |events| + 1 ==> Mirrors((ops + [op])[i], (events + [e])[i])
  {
  }

  lemma ViewsAreTimely(c: Config, events: seq<Event>, key: string, n: int)
    requires TimelyRun(events) && SweepsWait(events, n)
    ensures Timely(Views(c, events, key)) && Waits(Views(c, events, key), n)
  {
    var ops := Views(c, events, key);
    ViewsMirrorEvents(c, events, key);
    assert forall i :: 0 <= i < |ops| ==> Mirrors(ops[i], events[i]) && ops[i].at == events[i].at;
  }

  lemma ViewsAreLegal(c: Config, events: seq<Event>, key: string)
    requires LegalRun(events)
    ensures Legal(Views(c, events, key))
  {
    ViewsAreTimely(c, events, key, 3600);
  }

  /** The table's bucket for a client and group, and the requests let through, are those of a
      single bucket that sees only its own events. */
  lemma {:induction false} TableRefinesBucket(c: Config, events: seq<Event>, client: string, group: string)
    requires WellFormed(c) && ':' !in group
    ensures var key := Key(client, group);
            && BucketAt(After(c, events).buckets, key) == Run(Views(c, events, key))
            && Admitted(c, events, client, group) == Admissions(Views(c, events, key))
    decreases |events|
  {
    var key := Key(client, group);
    if events != [] {
      var before, e := events[..|events| - 1], events[|events| - 1];
      var s, ops := After(c, before), Views(c, before, key);
      TableRefinesBucket(c, before, client, group);
      ConfigStaysWellFormed(c, before);
      assert Views(c, events, key)[..|ops|] == ops;
      if e.Check? {
        GroupHasNoColon(s.config, e.path);
        if KeyFor(s.config, e.client, e.path) == key {
          KeyIdentifies(e.client, Group(s.config, e.path), client, group);
        }
      }
    }
  }

  // ---------------------------------------------------------------------------------------
  // The guarantees of the whole limiter
  // ---------------------------------------------------------------------------------------

  /** For every client, path group and time, at most as many requests of the last minute (hour)
      got through as the limits then in force allow: across configuration updates, refusals,
      other clients and any number of sweeps. */
  lemma {:induction false} LimitsHold(c: Config, events: seq<Event>, client: string, group: string, w: Window, t: real)
    requires WellFormed(c) && LegalRun(events) && ':' !in group
    ensures Within(Admitted(c, events, client, group), w, t)
  {
    TableRefinesBucket(c, events, client, group);
    ViewsAreLegal(c, events, Key(client, group));
    SlidingWindows(Views(c, events, Key(client, group)), w, t);
  }

  /** All requests of the run that belong to `group` are judged by `l`. */
  ghost predicate Fixed(c: Config, events: seq<Event>, group: string, l: Limits) {
    forall i :: 0 <= i < |events| && events[i].Check?
                && Group(After(c, events[..i]).config, events[i].path) == group
                ==> ConfigFor(After(c, events[..i]).config, events[i].path) == l
  }

  lemma {:induction false} ViewsAreFixed(c: Config, events: seq<Event>, client: string, group: string, l: Limits)
    requires WellFormed(c) && ':' !in group && Fixed(c, events, group, l)
    ensures OnlyLimits(Views(c, events, Key(client, group)), l)
    ensures forall i :: 0 <= i < |Admitted(c, events, client, group)| ==>
              Admitted(c, events, client, group)[i].limits == l
    decreases |events|
  {
    if events != [] {
      var before, e := events[..|events| - 1], events[|events| - 1];
      assert forall i :: 0 <= i < |before| ==> before[..i] == events[..i] && before[i] == events[i];
      ViewsAreFixed(c, before, client, group, l);
      ConfigStaysWellFormed(c, before);
      if e.Check? {
        var s := After(c, before);
        GroupHasNoColon(s.config, e.path);
        if KeyFor(s.config, e.client, e.path) == Key(client, group) {
          KeyIdentifies(e.client, Group(s.config, e.path), client, group);
        }
      }
    }
  }

  lemma {:induction false} WindowKeepsLimits(adm: seq<Admission>, lo: real, hi: real, l: Limits)
    requires forall i :: 0 <= i < |adm| ==> adm[i].limits == l
    ensures forall a :: a in InWindow(adm, lo, hi) ==> a.limits == l
  {
    if adm != [] {
      WindowKeepsLimits(adm[..|adm| - 1], lo, hi, l);
    }
  }

  lemma AllowedByOne(inside: seq<Admission>, w: Window, l: Limits)
    requires Allowed(inside, w) && forall a :: a in inside ==> a.limits == l
    ensures |inside| <= Max(0, Allowance(l, w))
  {
  }

  /** With fixed limits: at most `perMinute` in any minute and `perHour` in any hour. */
  lemma FixedLimitsHold(c: Config, events: seq<Event>, client: string, group: string, l: Limits, w: Window, t: real)
    requires WellFormed(c) && LegalRun(events) && ':' !in group && Fixed(c, events, group, l)
    ensures |InWindow(Admitted(c, events, client, group), t - Span(w), t)| <= Max(0, Allowance(l, w))
  {
    var inside := InWindow(Admitted(c, events, client, group), t - Span(w), t);
    assert Allowed(inside, w) by {
      LimitsHold(c, events, client, group, w, t);
    }
    assert forall a :: a in inside ==> a.limits == l by {
      ViewsAreFixed(c, events, client, group, l);
      WindowKeepsLimits(Admitted(c, events, client, group), t - Span(w), t, l);
    }
    AllowedByOne(inside, w, l);
  }

  // ---------------------------------------------------------------------------------------
  // Bursts
  // ---------------------------------------------------------------------------------------

  /** In any interval one client gets at most a burst plus the refill of the interval through to a
      path group, whatever the limits, although new buckets start with ten tokens, refused requests may
      skip the refill, and collected buckets start afresh. */
  lemma {:induction false} BurstsHold(
      c: Config, events: seq<Event>, client: string, group: string, l: Limits, s: real, t: real)
    requires WellFormed(c) && LegalRun(events) && ':' !in group && Fixed(c, events, group, l)
    requires s <= t
    ensures var n := CountBetween(Admitted(c, events, client, group), s, t) as real;
            if l.perMinute <= 0 || l.perHour <= 0 || l.burst <= 0 then n == 0.0
            else n <= l.burst as real + Earned(l, s, t)
  {
    var ops := Views(c, events, Key(client, group));
    TableRefinesBucket(c, events, client, group);
    OneView(c, events, client, group, l);
    BucketBursts(ops, l, s, t);
  }

  lemma BucketBursts(ops: seq<Op>, l: Limits, s: real, t: real)
    requires Legal(ops) && OnlyLimits(ops, l) && s <= t
    ensures var n := CountBetween(Admissions(ops), s, t) as real;
            if l.perMinute <= 0 || l.perHour <= 0 || l.burst <= 0 then n == 0.0
            else n <= l.burst as real + Earned(l, s, t)
  {
    if l.perMinute <= 0 || l.perHour <= 0 || l.burst <= 0 {
      NothingWithoutLimit(ops, l);
    } else {
      TokenBound(ops, l, s, t, 3600);
    }
  }

  lemma OneView(c: Config, events: seq<Event>, client: string, group: string, l: Limits)
    requires WellFormed(c) && LegalRun(events) && ':' !in group && Fixed(c, events, group, l)
    ensures var ops := Views(c, events, Key(client, group));
            Legal(ops) && OnlyLimits(ops, l)
  {
    ViewsAreLegal(c, events, Key(client, group));
    ViewsAreFixed(c, events, client, group, l);
  }
}
