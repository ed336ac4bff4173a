/** Runs of the rate limiter of backend/app/middleware/rate_limit.py that visit the MCP path, under limits
    an administrator can set (10 to 10000 requests a minute).
 */
module McpRuns {
  import opened Common
  import opened RateBucket
  import opened RateLimiting

  const HIGH := McpLimits(10000)
  const LOW := McpLimits(10)

  /** The initial configuration with `l` for the MCP prefix. */
  function McpConfig(l: Limits): Config {
    INITIAL.(paths := INITIAL.paths[..3] + [(MCP, l)])
  }

  lemma McpJudged(l: Limits)
    ensures ConfigFor(McpConfig(l), MCP) == l && Group(McpConfig(l), MCP) == MCP
  {
    var paths := McpConfig(l).paths;
    assert paths[0].0[1] == 'h' && |paths[1].0| > |MCP| && paths[2].0[1] == 'a';
    assert MatchFrom(paths, MCP, 3) == Some(3);
    assert MatchFrom(paths, MCP, 2) == Some(3);
    assert MatchFrom(paths, MCP, 1) == Some(3);
  }

  lemma McpUpdated(l: Limits, perMinute: int)
    ensures UpdateMcp(McpConfig(l), perMinute) == McpConfig(McpLimits(perMinute))
  {
    var paths, l' := McpConfig(l).paths, McpLimits(perMinute);
    assert paths[0].0[1] == 'h' && |paths[1].0| > |MCP| && paths[2].0[1] == 'a';
    assert Assign(paths[3..], MCP, l') == [(MCP, l')];
    assert paths[2..][1..] == paths[3..] && paths[1..][1..] == paths[2..];
    assert Assign(paths[2..], MCP, l') == [paths[2], (MCP, l')];
    assert Assign(paths[1..], MCP, l') == [paths[1], paths[2], (MCP, l')];
  }

  /** One more event, for the limiter and for what is admitted of one client's MCP requests. */
  lemma Extend(events: seq<Event>, e: Event, client: string)
    ensures var s := After(INITIAL, events);
            && After(INITIAL, events + [e]) == Next(s, e)
            && Admitted(INITIAL, events + [e], client, MCP)
            == Admitted(INITIAL, events, client, MCP)
               + if e.Check? && e.client == client && Group(s.config, e.path) == MCP
                    && CheckLimit(s, client, e.path, e.created, e.at).1.allowed
                 then [Admission(e.at, ConfigFor(s.config, e.path))] else []
  {
    assert (events + [e])[..|events|] == events;
  }

  /** After a run the MCP limits are `l`, and `ob` is the bucket of one client's MCP requests. */
  ghost predicate Reaches(events: seq<Event>, client: string, l: Limits, ob: Option<Bucket>) {
    var s := After(INITIAL, events);
    s.config == McpConfig(l) && BucketAt(s.buckets, Key(client, MCP)) == ob
  }

  /** One more MCP request at time `t`. */
  lemma Visit(events: seq<Event>, client: string, l: Limits, ob: Option<Bucket>, t: real, b: Bucket)
    requires Reaches(events, client, l, ob) && Use(l, Touch(ob, t), t).0 == b
    ensures Reaches(events + [Check(client, MCP, t, t)], client, l, Some(b))
  {
    McpJudged(l);
    Extend(events, Check(client, MCP, t, t), client);
  }

  /** The same request, among those admitted. */
  lemma VisitAdmits(events: seq<Event>, client: string, l: Limits, ob: Option<Bucket>, t: real)
    requires Reaches(events, client, l, ob) && Use(l, Touch(ob, t), t).1.allowed
    ensures Admitted(INITIAL, events + [Check(client, MCP, t, t)], client, MCP)
         == Admitted(INITIAL, events, client, MCP) + [Admission(t, l)]
  {
    McpJudged(l);
    Extend(events, Check(client, MCP, t, t), client);
  }

  /** One more change of the limits. */
  lemma Change(events: seq<Event>, client: string, l: Limits, ob: Option<Bucket>, perMinute: int, t: real)
    requires Reaches(events, client, l, ob)
    ensures Reaches(events + [Update(perMinute, t)], client, McpLimits(perMinute), ob)
    ensures Admitted(INITIAL, events + [Update(perMinute, t)], client, MCP) == Admitted(INITIAL, events, client, MCP)
  {
    McpUpdated(l, perMinute);
    Extend(events, Update(perMinute, t), client);
  }

  /** A sweep that finds the bucket idle. */
  lemma SweepOut(events: seq<Event>, client: string, l: Limits, b: Bucket, n: int, t: real)
    requires Reaches(events, client, l, Some(b)) && Inactive(b, t - n as real)
    ensures Reaches(events + [Cleanup(n, t)], client, l, None)
    ensures Admitted(INITIAL, events + [Cleanup(n, t)], client, MCP) == Admitted(INITIAL, events, client, MCP)
  {
    Extend(events, Cleanup(n, t), client);
  }

  const START := Limits(300, 5000, 30)

  lemma Start(client: string)
    ensures Reaches([], client, START, None)
  {
    assert INITIAL == McpConfig(START);
  }

  // ---------------------------------------------------------------------------------------
  // Which limits judge a path
  // ---------------------------------------------------------------------------------------

  /** The MCP limits set last. */
  function LastMcp(events: seq<Event>): Limits {
    if events == [] then START
    else if events[|events| - 1].Update? then McpLimits(events[|events| - 1].perMinute)
    else LastMcp(events[..|events| - 1])
  }

  lemma {:induction false} ReachableConfig(events: seq<Event>)
    ensures After(INITIAL, events).config == McpConfig(LastMcp(events))
    decreases |events|
  {
    if events == [] {
      assert INITIAL == McpConfig(START);
    } else {
      var before, e := events[..|events| - 1], events[|events| - 1];
      ReachableConfig(before);
      if e.Update? {
        McpUpdated(LastMcp(before), e.perMinute);
      }
    }
  }

  /** The path groups and their limits, by prefix. */
  function Judgement(mcp: Limits, path: string): (string, Limits) {
    if "/health" <= path then ("/health", Limits(30, 600, 10))
    else if "/mcp/health" <= path then ("/mcp/health", Limits(30, 600, 10))
    else if "/api/tools/" <= path then ("/api/tools/", Limits(60, 1000, 15))
    else if MCP <= path then (MCP, mcp)
    else (DEFAULT_GROUP, Limits(100, 2000, 20))
  }

  /** In every run, whatever limits are set, each path is judged by its group's limits; only those of the
      MCP path ever change. */
  lemma PathsJudged(events: seq<Event>, path: string)
    ensures var c := After(INITIAL, events).config;
            (Group(c, path), ConfigFor(c, path)) == Judgement(LastMcp(events), path)
  {
    ReachableConfig(events);
    var paths := McpConfig(LastMcp(events)).paths;
    assert |paths| == 4 && paths[0] == INITIAL.paths[0] && paths[1] == INITIAL.paths[1] && paths[2] == INITIAL.paths[2];
    assert paths[3] == (MCP, LastMcp(events));
  }

  /** So health checks of the MCP server, whose prefix starts with that of the MCP path, have limits and
      buckets of their own. */
  lemma HealthChecksAreApart(events: seq<Event>, client: string, path: string, other: string, path': string)
    requires "/mcp/health" <= path && !("/mcp/health" <= path')
    ensures var c := After(INITIAL, events).config;
            ConfigFor(c, path) == Limits(30, 600, 10) && KeyFor(c, client, path) != KeyFor(c, other, path')
  {
    var c := After(INITIAL, events).config;
    PathsJudged(events, path);
    PathsJudged(events, path');
    InitialWellFormed();
    ConfigStaysWellFormed(INITIAL, events);
    GroupHasNoColon(c, path);
    GroupHasNoColon(c, path');
    assert path[1] == 'm' && "/health"[1] == 'h';
    if KeyFor(c, client, path) == KeyFor(c, other, path') {
      KeyIdentifies(client, Group(c, path), other, Group(c, path'));
    }
  }

  // ---------------------------------------------------------------------------------------
  // A client that uses up its hour
  // ---------------------------------------------------------------------------------------

  /** With ten requests a minute: one request every six seconds. */
  function PacedTime(start: real, i: int): real {
    start + 6.0 * i as real
  }

  function Paced(client: string, start: real, n: nat): seq<Event> {
    if n == 0 then [Update(10, start)]
    else
      var t := PacedTime(start, n - 1);
      Paced(client, start, n - 1) + [Check(client, MCP, t, t)]
  }

  /** The requests from the `a`-th up to the `b`-th. */
  function PacedStamps(start: real, a: nat, b: nat): seq<real> {
    if a >= b then [] else PacedStamps(start, a, b - 1) + [PacedTime(start, b - 1)]
  }

  /** Those that are left when the `k`-th is the last to have gone. */
  lemma {:induction false} PacedRecent(start: real, a: nat, b: nat, k: int, cutoff: real)
    requires PacedTime(start, k) <= cutoff < PacedTime(start, k + 1)
    ensures Recent(PacedStamps(start, a, b), cutoff) == PacedStamps(start, Max(a, k + 1), b)
    ensures |PacedStamps(start, a, b)| == if a <= b then b - a else 0
    decreases b
  {
    if a < b {
      PacedRecent(start, a, b - 1, k, cutoff);
      RecentSnoc(PacedStamps(start, a, b - 1), PacedTime(start, b - 1), cutoff);
    }
  }

  function PacedBucket(start: real, n: nat): Bucket
    requires n > 0
  {
    Bucket(4.0, PacedTime(start, n - 1), PacedStamps(start, Max(0, n - 10), n), PacedStamps(start, 0, n))
  }

  lemma LowRate(from: real, to: real)
    ensures Earned(LOW, from, to) == (to - from) / 6.0
  {
    assert Rate(LOW) == 1.0 / 6.0;
  }

  /** A request that finds room for it in both lists, once pruned, and a token. */
  lemma UseWithRoom(l: Limits, b: Bucket, now: real, minute: seq<real>, hour: seq<real>)
    requires Recent(b.minute, now - MINUTE) == minute && |minute| < l.perMinute
    requires Recent(b.hour, now - HOUR) == hour && |hour| < l.perHour
    requires Refill(l, b, now) >= 1.0
    ensures Use(l, b, now).0 == Bucket(Refill(l, b, now) - 1.0, now, minute + [now], hour + [now])
    ensures Use(l, b, now).1.allowed
  {
  }

  lemma PacedMinute(start: real, n: nat)
    ensures Recent(PacedStamps(start, Max(0, n - 10), n), PacedTime(start, n) - MINUTE)
         == PacedStamps(start, Max(0, n - 9), n)
    ensures |PacedStamps(start, Max(0, n - 9), n)| < 10
  {
    var cutoff := PacedTime(start, n) - MINUTE;
    assert cutoff == PacedTime(start, n - 10);
    PacedRecent(start, Max(0, n - 10), n, n - 10, cutoff);
    PacedRecent(start, Max(0, n - 9), n, n - 10, cutoff);
  }

  lemma PacedHour(start: real, n: nat)
    requires n < 170
    ensures Recent(PacedStamps(start, 0, n), PacedTime(start, n) - HOUR) == PacedStamps(start, 0, n)
    ensures |PacedStamps(start, 0, n)| == n
  {
    var cutoff := PacedTime(start, n) - HOUR;
    assert cutoff == PacedTime(start, n - 600);
    PacedRecent(start, 0, n, n - 600, cutoff);
  }

  lemma PacedUse(start: real, n: nat)
    requires 0 < n < 170
    ensures Use(LOW, PacedBucket(start, n), PacedTime(start, n)).0 == PacedBucket(start, n + 1)
  {
    var b, t := PacedBucket(start, n), PacedTime(start, n);
    PacedMinute(start, n);
    PacedHour(start, n);
    LowRate(b.lastUpdate, t);
    UseWithRoom(LOW, b, t, PacedStamps(start, Max(0, n - 9), n), PacedStamps(start, 0, n));
  }

  lemma FirstPacedUse(start: real)
    ensures Use(LOW, NewBucket(start), PacedTime(start, 0)).0 == PacedBucket(start, 1)
  {
    LowRate(start, start);
    assert PacedStamps(start, 0, 1) == [start];
  }

  lemma {:induction false} PacedReaches(client: string, start: real, n: nat)
    requires n <= 170
    ensures Reaches(Paced(client, start, n), client, LOW, if n == 0 then None else Some(PacedBucket(start, n)))
  {
    if n == 0 {
      Start(client);
      Change([], client, START, None, 10, start);
      assert [] + [Update(10, start)] == [Update(10, start)];
    } else {
      PacedReaches(client, start, n - 1);
      var before, t := Paced(client, start, n - 1), PacedTime(start, n - 1);
      if n == 1 {
        FirstPacedUse(start);
        Visit(before, client, LOW, None, t, PacedBucket(start, 1));
      } else {
        PacedUse(start, n - 1);
        Visit(before, client, LOW, Some(PacedBucket(start, n - 1)), t, PacedBucket(start, n));
      }
    }
  }
}
