/** How long the collector of backend/app/middleware/rate_limit.py must let a bucket be idle: an hour,
    and no second less, under limits an administrator can set.
 */
module SweepPeriod {
  import opened Common
  import opened RateBucket
  import opened RateLimiting
  import opened McpRuns

  // ---------------------------------------------------------------------------------------
  // A rush, a lower limit, a sweep
  // ---------------------------------------------------------------------------------------

  /** A bucket is created at time 0, and `k` requests come at time 1. */
  function Rush(client: string, k: nat): seq<Event> {
    if k == 0 then [Update(10000, 0.0)] + [Check(client, MCP, 0.0, 0.0)]
    else Rush(client, k - 1) + [Check(client, MCP, 1.0, 1.0)]
  }

  /** Then the limit is lowered, and a sweep of buckets idle for `n` seconds and one more request come
      half a second after such a bucket is idle long enough. */
  function Later(n: int): real {
    1.0 + Max(n, 0) as real + 0.5
  }

  function RushAndSweep(client: string, n: int): seq<Event> {
    Rush(client, 170) + [Update(10, 1.0)] + [Cleanup(n, Later(n))] + [Check(client, MCP, Later(n), Later(n))]
  }

  function Stamps(k: nat): seq<real> {
    if k == 0 then [0.0] else Stamps(k - 1) + [1.0]
  }

  lemma {:induction false} StampsAreRecent(k: nat, cutoff: real)
    requires cutoff < 0.0
    ensures Recent(Stamps(k), cutoff) == Stamps(k) && |Stamps(k)| == k + 1
  {
    if k > 0 {
      StampsAreRecent(k - 1, cutoff);
      RecentSnoc(Stamps(k - 1), 1.0, cutoff);
    } else {
      RecentSnoc([], 0.0, cutoff);
      assert [] + [0.0] == Stamps(0);
    }
  }

  function RushBucket(k: nat): Bucket {
    if k == 0 then Bucket(9.0, 0.0, [0.0], [0.0])
    else Bucket(9.0 + Earned(HIGH, 0.0, 1.0) - k as real, 1.0, Stamps(k), Stamps(k))
  }

  lemma RushUse(k: nat)
    requires k < 170
    ensures var (b, d) := Use(HIGH, RushBucket(k), 1.0);
            b == RushBucket(k + 1) && d.allowed
  {
    var b := RushBucket(k);
    StampsAreRecent(k, 1.0 - MINUTE);
    StampsAreRecent(k, 1.0 - HOUR);
    assert Refill(HIGH, b, 1.0) == 9.0 + Earned(HIGH, 0.0, 1.0) - k as real by {
      EarnedAtOnce(HIGH, 1.0);
      assert Rate(HIGH) > 166.0 && Rate(HIGH) < 167.0;
      assert Earned(HIGH, 0.0, 1.0) == Rate(HIGH);
    }
    assert Earned(HIGH, 0.0, 1.0) > 166.0;
    UseWithRoom(HIGH, b, 1.0, b.minute, b.hour);
  }

  lemma FirstRushUse()
    ensures var (b, d) := Use(HIGH, NewBucket(0.0), 0.0);
            b == RushBucket(0) && d.allowed
  {
    EarnedAtOnce(HIGH, 0.0);
  }

  ghost predicate Counts(adm: seq<Admission>, k: nat) {
    forall lo, hi :: lo < 1.0 <= hi ==> |InWindow(adm, lo, hi)| >= k
  }

  lemma CountsOneMore(adm: seq<Admission>, k: nat, l: Limits)
    requires Counts(adm, k)
    ensures Counts(adm + [Admission(1.0, l)], k + 1)
  {
    assert (adm + [Admission(1.0, l)])[..|adm|] == adm;
  }

  lemma RushStarts(client: string)
    ensures Reaches(Rush(client, 0), client, HIGH, Some(RushBucket(0)))
  {
    var first := [Update(10000, 0.0)];
    Start(client);
    Change([], client, START, None, 10000, 0.0);
    assert [] + first == first;
    FirstRushUse();
    Visit(first, client, HIGH, None, 0.0, RushBucket(0));
  }

  lemma {:induction false} RushGetsThrough(client: string, k: nat)
    requires k <= 170
    ensures Reaches(Rush(client, k), client, HIGH, Some(RushBucket(k)))
    ensures Counts(Admitted(INITIAL, Rush(client, k), client, MCP), k)
    decreases k
  {
    if k == 0 {
      RushStarts(client);
    } else {
      var before, b := Rush(client, k - 1), RushBucket(k - 1);
      RushGetsThrough(client, k - 1);
      RushUse(k - 1);
      Visit(before, client, HIGH, Some(b), 1.0, RushBucket(k));
      VisitAdmits(before, client, HIGH, Some(b), 1.0);
      CountsOneMore(Admitted(INITIAL, before, client, MCP), k - 1, HIGH);
    }
  }

  lemma RushIsOver(n: int)
    requires n < 3600
    ensures Inactive(RushBucket(170), Later(n) - n as real)
  {
    StampsUpToOne(170);
    MaximumIn(Stamps(170));
  }

  /** A first request at ten a minute. */
  lemma LowStarts(t: real)
    ensures Use(LOW, NewBucket(t), t).1.allowed
  {
    LowRate(t, t);
  }

  lemma {:induction false} StampsUpToOne(k: nat)
    ensures forall x :: x in Stamps(k) ==> x <= 1.0
  {
    if k > 0 {
      StampsUpToOne(k - 1);
    }
  }

  /** Sweeping buckets idle for less than an hour breaks the hourly limit under limits an administrator
      can set, whatever the period; the run is legal but for its sweep. */
  lemma ShortSweepsBreakTheHour(client: string, n: int)
    requires n < 3600
    ensures var events := RushAndSweep(client, n);
            && TimelyRun(events) && SweepsWait(events, n)
            && !Within(Admitted(INITIAL, events, client, MCP), PerHour, Later(n))
  {
    var rush, t := Rush(client, 170), Later(n);
    var lowered := rush + [Update(10, 1.0)];
    var swept := lowered + [Cleanup(n, t)];
    RushGetsThrough(client, 170);
    Change(rush, client, HIGH, Some(RushBucket(170)), 10, 1.0);
    RushIsOver(n);
    SweepOut(lowered, client, LOW, RushBucket(170), n, t);
    LowStarts(t);
    VisitAdmits(swept, client, LOW, None, t);
    OneTooMany(Admitted(INITIAL, swept, client, MCP), t);
    RunIsTimely(client, n);
  }

  lemma OneTooMany(adm: seq<Admission>, t: real)
    requires Counts(adm, 170) && 1.0 <= t < 1.0 + HOUR
    ensures !Within(adm + [Admission(t, LOW)], PerHour, t)
  {
    assert (adm + [Admission(t, LOW)])[..|adm|] == adm;
    assert |InWindow(adm, t - HOUR, t)| >= 170;
  }

  lemma {:induction false} RushTimes(client: string, k: nat)
    ensures |Rush(client, k)| == k + 2
    ensures forall i :: 0 <= i < k + 2 ==>
              var e := Rush(client, k)[i];
              !e.Cleanup? && e.at == (if i < 2 then 0.0 else 1.0) && (e.Check? ==> e.created == e.at)
  {
    if k > 0 {
      RushTimes(client, k - 1);
    }
  }

  lemma RunIsTimely(client: string, n: int)
    ensures TimelyRun(RushAndSweep(client, n)) && SweepsWait(RushAndSweep(client, n), n)
  {
    RushTimes(client, 170);
  }

  /** The limits hold for every client, group and time of every run whose sweeps wait `n` seconds. */
  ghost predicate SafePeriod(n: int) {
    forall events, client, group, w, t ::
      TimelyRun(events) && SweepsWait(events, n) && ':' !in group
      ==> Within(Admitted(INITIAL, events, client, group), w, t)
  }

  lemma HourIsSafe(n: int)
    requires n >= 3600
    ensures SafePeriod(n)
  {
    InitialWellFormed();
    forall events, client, group, w, t | TimelyRun(events) && SweepsWait(events, n) && ':' !in group
      ensures Within(Admitted(INITIAL, events, client, group), w, t)
    {
      LimitsHold(INITIAL, events, client, group, w, t);
    }
  }

  /** The exact period: whatever limits are set in the course of a run, they hold if and only if sweeps
      wait an hour. */
  lemma LimitsHoldIffSweepsWait(n: int)
    ensures SafePeriod(n) <==> n >= 3600
  {
    if n >= 3600 {
      HourIsSafe(n);
    } else {
      ShortSweepsBreakTheHour("", n);
      assert ':' !in MCP;
    }
  }

  // ---------------------------------------------------------------------------------------
  // A bucket that is never collected
  // ---------------------------------------------------------------------------------------

  /** After using up its hour and a minute's pause, the client is refused once more and never returns. */
  function Abandoned(client: string, start: real): seq<Event> {
    Paced(client, start, 170) + [Check(client, MCP, start + 1080.0, start + 1080.0)]
  }

  lemma RefusalEmptiesMinute(b: Bucket, now: real)
    requires Recent(b.minute, now - MINUTE) == [] && Recent(b.hour, now - HOUR) == b.hour && |b.hour| >= 170
    ensures Use(LOW, b, now).0 == b.(minute := [])
  {
  }

  lemma HourlyRefusal(start: real)
    ensures var b, now := PacedBucket(start, 170), start + 1080.0;
            Use(LOW, b, now).0 == b.(minute := []) && |b.hour| == 170
  {
    var b, now := PacedBucket(start, 170), start + 1080.0;
    assert Recent(b.minute, now - MINUTE) == [] by {
      PacedRecent(start, 160, 170, 170, now - MINUTE);
    }
    assert Recent(b.hour, now - HOUR) == b.hour && |b.hour| == 170 by {
      PacedRecent(start, 0, 170, -420, now - HOUR);
    }
    RefusalEmptiesMinute(b, now);
  }

  /** The bucket stays for ever: its minute list was pruned empty by the refusal and its hour list was
      not, and neither changes without another request. */
  lemma NeverCollected(client: string, start: real, cutoff: real)
    ensures var b := PacedBucket(start, 170).(minute := []);
            Reaches(Abandoned(client, start), client, LOW, Some(b)) && !Inactive(b, cutoff)
  {
    var b := PacedBucket(start, 170);
    PacedReaches(client, start, 170);
    HourlyRefusal(start);
    Visit(Paced(client, start, 170), client, LOW, Some(b), start + 1080.0, b.(minute := []));
  }
}
