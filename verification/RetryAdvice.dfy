/** The `Retry-After` advice of backend/app/middleware/rate_limit.py: when a client that follows it gets
    through.
 */
module RetryAdvice {
  import opened Common
  import opened RateBucket
  import opened RateLimiting
  import opened McpRuns

  // ---------------------------------------------------------------------------------------
  // Any refusal
  // ---------------------------------------------------------------------------------------

  /** What a bucket needs for a request at `t`: room in both windows, and a token. */
  ghost predicate Ready(l: Limits, b: Bucket, t: real) {
    && |Recent(b.minute, t - MINUTE)| < l.perMinute
    && |Recent(b.hour, t - HOUR)| < l.perHour
    && Refill(l, b, t) >= 1.0
  }

  lemma AllowedIffReady(l: Limits, b: Bucket, t: real)
    ensures Use(l, b, t).1.allowed <==> Ready(l, b, t)
  {
  }

  lemma ReadyAgain(l: Limits, b: Bucket, u: Bucket, now: real, t: real)
    requires Stamps(l, b, u, false, now) && now <= t
    requires Refill(l, u, t) >= 1.0 <==> Refill(l, b, t) >= 1.0
    ensures Ready(l, u, t) <==> Ready(l, b, t)
  {
    ListsAgain(l, b, u, now, t);
  }

  lemma ListsAgain(l: Limits, b: Bucket, u: Bucket, now: real, t: real)
    requires Stamps(l, b, u, false, now) && now <= t
    ensures Recent(u.minute, t - MINUTE) == Recent(b.minute, t - MINUTE)
    ensures Recent(u.hour, t - HOUR) == Recent(b.hour, t - HOUR)
  {
    RecentTwice(b.minute, now - MINUTE, t - MINUTE);
    RecentTwice(b.hour, now - HOUR, t - HOUR);
  }

  /** A refused request that is made again after any wait `x`, with nothing in between, is admitted if
      and only if by then the minute list and the hour list, as they were, have shrunk below the limits
      and a token has come in. */
  lemma RetryAdmittedIff(l: Limits, b: Bucket, now: real, x: real)
    requires !Use(l, b, now).1.allowed && x >= 0.0
    ensures Use(l, Use(l, b, now).0, now + x).1.allowed <==> Ready(l, b, now + x)
  {
    var u := Use(l, b, now).0;
    UseEffect(l, b, now);
    RefusedTokens(l, b, now, now + x);
    ReadyAgain(l, b, u, now, now + x);
    AllowedIffReady(l, u, now + x);
  }

  lemma RefusedTokens(l: Limits, b: Bucket, now: real, later: real)
    requires !Use(l, b, now).1.allowed
    ensures Refill(l, Use(l, b, now).0, later) >= 1.0 <==> Refill(l, b, later) >= 1.0
  {
    EarnedAdds(l, b.lastUpdate, now, later);
  }

  /** So the advice given with a refusal is right exactly if the bucket is ready when it runs out. */
  lemma AdviceRightIff(l: Limits, b: Bucket, now: real)
    ensures match Use(l, b, now).1.retryAfter
            case None => Use(l, b, now).1.allowed
            case Some(r) =>
              && r >= 1 && !Use(l, b, now).1.allowed
              && (Use(l, Use(l, b, now).0, now + r as real).1.allowed <==> Ready(l, b, now + r as real))
  {
    if Use(l, b, now).1.retryAfter.Some? {
      var r := Use(l, b, now).1.retryAfter.value;
      AdviceIsPositive(l, b, now);
      RetryAdmittedIff(l, b, now, r as real);
    }
  }

  lemma AdviceIsPositive(l: Limits, b: Bucket, now: real)
    ensures Use(l, b, now).1.allowed <==> Use(l, b, now).1.retryAfter == None
    ensures Use(l, b, now).1.retryAfter.Some? ==> Use(l, b, now).1.retryAfter.value >= 1
  {
  }

  // ---------------------------------------------------------------------------------------
  // Refused by a window
  // ---------------------------------------------------------------------------------------

  lemma {:induction false} MinimumLeast(s: seq<real>)
    requires s != []
    ensures forall x :: x in s ==> Minimum(s) <= x
  {
    if |s| > 1 {
      MinimumLeast(s[..|s| - 1]);
      assert s == s[..|s| - 1] + [s[|s| - 1]];
    }
  }

  /** A list loses an entry as soon as the oldest one is past the cutoff. */
  lemma {:induction false} ShrinksIffOldestLeaves(s: seq<real>, cutoff: real)
    requires s != []
    ensures |Recent(s, cutoff)| < |s| <==> Minimum(s) <= cutoff
    ensures |Recent(s, cutoff)| <= |s|
  {
    var n := |s| - 1;
    if n > 0 {
      ShrinksIffOldestLeaves(s[..n], cutoff);
    }
  }

  /** How long until the oldest timestamp has left the window. */
  function Wait(stamps: seq<real>, window: real, now: real): real
    requires stamps != []
  {
    window - (now - Minimum(stamps))
  }

  /** A client refused by a list that just reached its limit finds room after the advised wait if and
      only if the time until the oldest timestamp leaves is a whole number of seconds or less than one;
      one second more is always enough. */
  lemma WindowAdvice(stamps: seq<real>, window: real, now: real)
    requires window >= 1.0 && stamps != []
    requires forall x :: x in stamps ==> now - window < x <= now
    ensures var r, wait := RetryAfter(stamps, window, now) as real, Wait(stamps, window, now);
            && 1.0 <= r <= window && wait - 1.0 < r && (r <= wait || r == 1.0)
            && (|Recent(stamps, now + r - window)| < |stamps| <==> wait <= 1.0 || wait == wait.Floor as real)
            && |Recent(stamps, now + r + 1.0 - window)| < |stamps|
  {
    var r := RetryAfter(stamps, window, now) as real;
    MinimumIn(stamps);
    ShrinksIffOldestLeaves(stamps, now + r - window);
    ShrinksIffOldestLeaves(stamps, now + r + 1.0 - window);
  }

  // ---------------------------------------------------------------------------------------
  // Refused for want of a token
  // ---------------------------------------------------------------------------------------

  ghost predicate LacksToken(l: Limits, b: Bucket, now: real) {
    && |Recent(b.minute, now - MINUTE)| < l.perMinute
    && |Recent(b.hour, now - HOUR)| < l.perHour
    && Refill(l, b, now) < 1.0
  }

  /** The advice is one second.  The request is admitted after a wait `x` if and only if the tokens left
      and the refill of that time make one, and the burst limit allows one at all. */
  lemma TokenAdvice(l: Limits, b: Bucket, now: real, x: real)
    requires LacksToken(l, b, now) && x >= 0.0
    ensures Use(l, b, now).1.retryAfter == Some(1) && !Use(l, b, now).1.allowed
    ensures Use(l, Use(l, b, now).0, now + x).1.allowed
       <==> l.burst >= 1 && Refill(l, b, now) + Earned(l, now, now + x) >= 1.0
  {
    LackingIsRefused(l, b, now);
    RetryAdmittedIff(l, b, now, x);
    ReadyForToken(l, b, now, now + x);
  }

  lemma ReadyForToken(l: Limits, b: Bucket, now: real, t: real)
    requires LacksToken(l, b, now) && now <= t
    ensures Ready(l, b, t) <==> l.burst >= 1 && Refill(l, b, now) + Earned(l, now, t) >= 1.0
  {
    RecentTwice(b.minute, now - MINUTE, t - MINUTE);
    RecentTwice(b.hour, now - HOUR, t - HOUR);
    EarnedAdds(l, b.lastUpdate, now, t);
  }

  lemma LackingIsRefused(l: Limits, b: Bucket, now: real)
    requires LacksToken(l, b, now)
    ensures Use(l, b, now).1.retryAfter == Some(1) && !Use(l, b, now).1.allowed
  {
  }

  lemma SecondEarnsRate(l: Limits, now: real)
    ensures Earned(l, now, now + 1.0) == Rate(l)
  {
  }

  /** For given limits the advice of one second is right for every bucket if and only if they allow sixty
      requests a minute. */
  lemma TokenAdviceRightIff(l: Limits)
    requires l.perMinute >= 1 && l.perHour >= 1 && l.burst >= 1
    ensures (forall b, now :: Solvent(Some(b), now) && LacksToken(l, b, now)
                             ==> Use(l, Use(l, b, now).0, now + 1.0).1.allowed)
       <==> l.perMinute >= 60
  {
    forall b, now | Solvent(Some(b), now) && LacksToken(l, b, now)
      ensures l.perMinute >= 60 ==> Use(l, Use(l, b, now).0, now + 1.0).1.allowed
    {
      TokenAdvice(l, b, now, 1.0);
      SecondEarnsRate(l, now);
      EarnedNonNegative(l, b.lastUpdate, now);
    }
    var empty := Bucket(0.0, 0.0, [], []);
    EarnedAtOnce(l, 0.0);
    assert Solvent(Some(empty), 0.0) && LacksToken(l, empty, 0.0);
    TokenAdvice(l, empty, 0.0, 1.0);
    SecondEarnsRate(l, 0.0);
  }

  // ---------------------------------------------------------------------------------------
  // Clients that follow the advice and are refused again
  // ---------------------------------------------------------------------------------------

  lemma MinimumIs(s: seq<real>, m: real)
    requires m in s && forall x :: x in s ==> m <= x
    ensures Minimum(s) == m
  {
    MinimumIn(s);
    MinimumLeast(s);
  }

  lemma {:induction false} AllRecent(s: seq<real>, cutoff: real)
    requires forall x :: x in s ==> x > cutoff
    ensures Recent(s, cutoff) == s
  {
    if s != [] {
      var n := |s| - 1;
      assert s[n] in s;
      forall x | x in s[..n] ensures x > cutoff {
        assert x in s;
      }
      AllRecent(s[..n], cutoff);
      assert s == s[..n] + [s[n]];
    }
  }

  /** A request that finds every timestamp recent, room and a token. */
  lemma UseOfRecent(l: Limits, b: Bucket, now: real)
    requires forall x :: x in b.minute ==> x > now - MINUTE
    requires forall x :: x in b.hour ==> x > now - HOUR
    requires |b.minute| < l.perMinute && |b.hour| < l.perHour && Refill(l, b, now) >= 1.0
    ensures Use(l, b, now).0 == Bucket(Refill(l, b, now) - 1.0, now, b.minute + [now], b.hour + [now])
  {
    AllRecent(b.minute, now - MINUTE);
    AllRecent(b.hour, now - HOUR);
    UseWithRoom(l, b, now, b.minute, b.hour);
  }

  /** With ten requests a minute: five at once, then one every six seconds. */
  function BurstTime(start: real, i: nat): real {
    if i < 5 then start else start + 6.0 * (i - 4) as real
  }

  function Burst(client: string, start: real, n: nat): seq<Event> {
    if n == 0 then [Update(10, start)]
    else
      var t := BurstTime(start, n - 1);
      Burst(client, start, n - 1) + [Check(client, MCP, t, t)]
  }

  function BurstStamps(start: real, n: nat): seq<real> {
    if n == 0 then [] else BurstStamps(start, n - 1) + [BurstTime(start, n - 1)]
  }

  lemma {:induction false} BurstStampsSpan(start: real, n: nat)
    ensures |BurstStamps(start, n)| == n
    ensures forall x :: x in BurstStamps(start, n) ==> start <= x <= BurstTime(start, n)
    ensures n > 0 ==> start in BurstStamps(start, n)
  {
    if n > 0 {
      BurstStampsSpan(start, n - 1);
    }
  }

  function BurstBucket(start: real, n: nat): Bucket
    requires n > 0
  {
    var stamps := BurstStamps(start, n);
    Bucket(if n <= 5 then (5 - n) as real else 0.0, BurstTime(start, n - 1), stamps, stamps)
  }

  lemma BurstUse(start: real, n: nat)
    requires 0 < n < 10
    ensures Use(LOW, BurstBucket(start, n), BurstTime(start, n)).0 == BurstBucket(start, n + 1)
  {
    var t := BurstTime(start, n);
    BurstStampsSpan(start, n);
    LowRate(BurstTime(start, n - 1), t);
    UseOfRecent(LOW, BurstBucket(start, n), t);
  }

  lemma FirstBurstUse(start: real)
    ensures Use(LOW, NewBucket(start), start).0 == BurstBucket(start, 1)
  {
    LowRate(start, start);
    assert BurstStamps(start, 1) == [start];
  }

  /** What the limiter holds for the client after these requests. */
  lemma {:induction false} BurstReaches(client: string, start: real, n: nat)
    requires n <= 10
    ensures Reaches(Burst(client, start, n), client, LOW, if n == 0 then None else Some(BurstBucket(start, n)))
  {
    if n == 0 {
      Start(client);
      Change([], client, START, None, 10, start);
      assert [] + [Update(10, start)] == [Update(10, start)];
    } else {
      BurstReaches(client, start, n - 1);
      var before, t := Burst(client, start, n - 1), BurstTime(start, n - 1);
      if n == 1 {
        FirstBurstUse(start);
        Visit(before, client, LOW, None, t, BurstBucket(start, 1));
      } else {
        BurstUse(start, n - 1);
        Visit(before, client, LOW, Some(BurstBucket(start, n - 1)), t, BurstBucket(start, n));
      }
    }
  }

  lemma EmptyBucketLacksToken(start: real)
    ensures LacksToken(LOW, BurstBucket(start, 5), start) && Refill(LOW, BurstBucket(start, 5), start) == 0.0
  {
    BurstStampsSpan(start, 5);
    AllRecent(BurstStamps(start, 5), start - MINUTE);
    AllRecent(BurstStamps(start, 5), start - HOUR);
    LowRate(start, start);
  }

  lemma EmptyBucketWaits(b: Bucket, now: real, x: real)
    requires LacksToken(LOW, b, now) && Refill(LOW, b, now) == 0.0 && x >= 0.0
    ensures Use(LOW, b, now).1.retryAfter == Some(1)
    ensures Use(LOW, Use(LOW, b, now).0, now + x).1.allowed <==> x >= 6.0
  {
    TokenAdvice(LOW, b, now, x);
    LowRate(now, now + x);
  }

  /** A client with an empty bucket is told to wait a second; it has to wait six. */
  lemma OneSecondIsTooShort(client: string, start: real, x: real)
    requires x >= 0.0
    ensures var b := BurstBucket(start, 5);
            && Reaches(Burst(client, start, 5), client, LOW, Some(b))
            && Use(LOW, b, start).1.retryAfter == Some(1)
            && (Use(LOW, Use(LOW, b, start).0, start + x).1.allowed <==> x >= 6.0)
  {
    BurstReaches(client, start, 5);
    EmptyBucketLacksToken(start);
    EmptyBucketWaits(BurstBucket(start, 5), start, x);
  }

  /** The minute of a client that used it up frees when the first five requests leave it. */
  lemma UsedUpMinute(start: real, now: real)
    requires start + 30.0 <= now
    ensures var s := BurstStamps(start, 10);
            && |s| == 10 && Minimum(s) == start
            && (|Recent(s, now - MINUTE)| < 10 <==> now >= start + 60.0)
            && |Recent(s, now - HOUR)| <= 10
            && (now < start + 60.0 ==> Recent(s, now - MINUTE) == s)
  {
    var s := BurstStamps(start, 10);
    BurstStampsSpan(start, 10);
    MinimumIs(s, start);
    ShrinksIffOldestLeaves(s, now - MINUTE);
    ShrinksIffOldestLeaves(s, now - HOUR);
    if now < start + 60.0 {
      AllRecent(s, now - MINUTE);
    }
  }

  /** A client that finds its minute full gets the advice `r`; after `x` it gets through if and only if
      the minute has room by then, provided the hour and the tokens do not matter. */
  lemma MinuteFreesIff(l: Limits, b: Bucket, now: real, x: real, r: int)
    requires x >= 0.0 && Recent(b.minute, now - MINUTE) == b.minute && |b.minute| >= l.perMinute
    requires RetryAfter(b.minute, MINUTE, now) == r
    requires |Recent(b.minute, now + x - MINUTE)| < l.perMinute ==>
               |Recent(b.hour, now + x - HOUR)| < l.perHour && Refill(l, b, now + x) >= 1.0
    ensures Use(l, b, now).1.retryAfter == Some(r)
    ensures Use(l, Use(l, b, now).0, now + x).1.allowed <==> |Recent(b.minute, now + x - MINUTE)| < l.perMinute
  {
    assert !Use(l, b, now).1.allowed && Use(l, b, now).1.retryAfter == Some(r) by {
      RefusedByMinute(l, b, now);
    }
    assert Ready(l, b, now + x) <==> |Recent(b.minute, now + x - MINUTE)| < l.perMinute;
    RetryAdmittedIff(l, b, now, x);
  }

  lemma RefusedByMinute(l: Limits, b: Bucket, now: real)
    requires |Recent(b.minute, now - MINUTE)| >= l.perMinute
    ensures !Use(l, b, now).1.allowed
    ensures Use(l, b, now).1.retryAfter == Some(RetryAfter(Recent(b.minute, now - MINUTE), MINUTE, now))
  {
  }

  lemma UsedUpMinuteWaits(start: real, x: real)
    requires x >= 0.0
    ensures var b, now := BurstBucket(start, 10), start + 30.5;
            && Use(LOW, b, now).1.retryAfter == Some(29)
            && (Use(LOW, Use(LOW, b, now).0, now + x).1.allowed <==> x >= 29.5)
  {
    var b, now := BurstBucket(start, 10), start + 30.5;
    UsedUpMinute(start, now);
    UsedUpMinute(start, now + x);
    LowRate(b.lastUpdate, now + x);
    assert (29.5).Floor == 29;
    MinuteFreesIff(LOW, b, now, x, 29);
  }

  /** A client that used up its minute is told to wait 29 seconds; it has to wait 29 and a half. */
  lemma RoundedDownIsTooShort(client: string, start: real, x: real)
    requires x >= 0.0
    ensures var b, now := BurstBucket(start, 10), start + 30.5;
            && Reaches(Burst(client, start, 10), client, LOW, Some(b))
            && Use(LOW, b, now).1.retryAfter == Some(29)
            && (Use(LOW, Use(LOW, b, now).0, now + x).1.allowed <==> x >= 29.5)
  {
    BurstReaches(client, start, 10);
    UsedUpMinuteWaits(start, x);
  }

  /** The same for a client that finds its hour full. */
  lemma HourFreesIff(l: Limits, b: Bucket, now: real, x: real, r: int)
    requires x >= 0.0 && Recent(b.hour, now - HOUR) == b.hour && |b.hour| >= l.perHour
    requires |Recent(b.minute, now - MINUTE)| < l.perMinute && Refill(l, b, now + x) >= 1.0
    requires RetryAfter(b.hour, HOUR, now) == r
    ensures Use(l, b, now).1.retryAfter == Some(r)
    ensures Use(l, Use(l, b, now).0, now + x).1.allowed <==> |Recent(b.hour, now + x - HOUR)| < l.perHour
  {
    assert !Use(l, b, now).1.allowed && Use(l, b, now).1.retryAfter == Some(r) by {
      RefusedByHour(l, b, now);
    }
    assert Ready(l, b, now + x) <==> |Recent(b.hour, now + x - HOUR)| < l.perHour by {
      RecentTwice(b.minute, now - MINUTE, now + x - MINUTE);
    }
    RetryAdmittedIff(l, b, now, x);
  }

  lemma RefusedByHour(l: Limits, b: Bucket, now: real)
    requires |Recent(b.minute, now - MINUTE)| < l.perMinute && |Recent(b.hour, now - HOUR)| >= l.perHour
    ensures !Use(l, b, now).1.allowed
    ensures Use(l, b, now).1.retryAfter == Some(RetryAfter(Recent(b.hour, now - HOUR), HOUR, now))
  {
  }

  lemma {:induction false} PacedMinimum(start: real, n: nat)
    requires n > 0
    ensures Minimum(PacedStamps(start, 0, n)) == start
  {
    if n > 1 {
      PacedMinimum(start, n - 1);
      assert PacedStamps(start, 0, n)[..|PacedStamps(start, 0, n)| - 1] == PacedStamps(start, 0, n - 1);
      assert PacedStamps(start, 0, n - 1) != [];
    } else {
      assert PacedStamps(start, 0, 1) == [start];
    }
  }

  lemma UsedUpHour(start: real)
    ensures var b, now := PacedBucket(start, 170), start + 1020.5;
            && |Recent(b.minute, now - MINUTE)| < 10
            && |b.hour| == 170 && Recent(b.hour, now - HOUR) == b.hour
            && RetryAfter(b.hour, HOUR, now) == 2579
  {
    var now := start + 1020.5;
    PacedRecent(start, 160, 170, 160, now - MINUTE);
    PacedRecent(start, 161, 170, 160, now - MINUTE);
    PacedRecent(start, 0, 170, -430, now - HOUR);
    PacedMinimum(start, 170);
    assert (2579.5).Floor == 2579;
  }

  lemma UsedUpHourWaits(start: real, x: real)
    requires x >= 0.0
    ensures var b, now := PacedBucket(start, 170), start + 1020.5;
            && Use(LOW, b, now).1.retryAfter == Some(2579)
            && (Use(LOW, Use(LOW, b, now).0, now + x).1.allowed <==> x >= 2579.5)
  {
    var b, now := PacedBucket(start, 170), start + 1020.5;
    UsedUpHour(start);
    PacedMinimum(start, 170);
    ShrinksIffOldestLeaves(b.hour, now + x - HOUR);
    LowRate(b.lastUpdate, now + x);
    HourFreesIff(LOW, b, now, x, 2579);
  }

  /** A client that used up its hour is told to wait 2579 seconds; it has to wait half a second more. */
  lemma RoundedDownHour(client: string, start: real, x: real)
    requires x >= 0.0
    ensures var b, now := PacedBucket(start, 170), start + 1020.5;
            && Reaches(Paced(client, start, 170), client, LOW, Some(b))
            && Use(LOW, b, now).1.retryAfter == Some(2579)
            && (Use(LOW, Use(LOW, b, now).0, now + x).1.allowed <==> x >= 2579.5)
  {
    PacedReaches(client, start, 170);
    UsedUpHourWaits(start, x);
  }

  // ---------------------------------------------------------------------------------------
  // The limit is lowered
  // ---------------------------------------------------------------------------------------

  /** One request, ten more half a minute later, then the limit is lowered to ten. */
  function VisitTime(start: real, n: nat): real {
    if n == 0 then start else start + 30.0
  }

  function Visits(client: string, start: real, n: nat): seq<Event> {
    if n == 0 then []
    else
      var t := VisitTime(start, n - 1);
      Visits(client, start, n - 1) + [Check(client, MCP, t, t)]
  }

  function VisitStamps(start: real, n: nat): seq<real> {
    if n == 0 then [] else VisitStamps(start, n - 1) + [VisitTime(start, n - 1)]
  }

  lemma {:induction false} VisitStampsAre(start: real, n: nat, cutoff: real)
    requires start <= cutoff < start + 30.0 && n > 0
    ensures |VisitStamps(start, n)| == n && start in VisitStamps(start, n)
    ensures forall x :: x in VisitStamps(start, n) ==> start <= x <= start + 30.0
    ensures |Recent(VisitStamps(start, n), cutoff)| == n - 1
  {
    if n > 1 {
      VisitStampsAre(start, n - 1, cutoff);
      RecentSnoc(VisitStamps(start, n - 1), start + 30.0, cutoff);
    } else {
      assert VisitStamps(start, 1) == [start];
    }
  }

  function VisitBucket(start: real, n: nat): Bucket
    requires n > 0
  {
    var stamps := VisitStamps(start, n);
    Bucket(if n == 1 then 9.0 else (31 - n) as real, VisitTime(start, n - 1), stamps, stamps)
  }

  lemma StartRate(from: real, to: real)
    ensures Earned(START, from, to) == (to - from) * 5.0
  {
    assert Rate(START) == 5.0;
  }

  lemma FirstVisitUse(start: real)
    ensures Use(START, NewBucket(start), start).0 == VisitBucket(start, 1)
  {
    StartRate(start, start);
    assert VisitStamps(start, 1) == [start];
  }

  lemma VisitUse(start: real, n: nat)
    requires 0 < n <= 10
    ensures Use(START, VisitBucket(start, n), VisitTime(start, n)).0 == VisitBucket(start, n + 1)
  {
    var t := VisitTime(start, n);
    VisitStampsAre(start, n, start);
    StartRate(VisitTime(start, n - 1), t);
    UseOfRecent(START, VisitBucket(start, n), t);
  }

  lemma {:induction false} VisitsReach(client: string, start: real, n: nat)
    requires n <= 11
    ensures Reaches(Visits(client, start, n), client, START, if n == 0 then None else Some(VisitBucket(start, n)))
  {
    if n == 0 {
      Start(client);
    } else {
      VisitsReach(client, start, n - 1);
      var before, t := Visits(client, start, n - 1), VisitTime(start, n - 1);
      if n == 1 {
        FirstVisitUse(start);
        Visit(before, client, START, None, t, VisitBucket(start, 1));
      } else {
        VisitUse(start, n - 1);
        Visit(before, client, START, Some(VisitBucket(start, n - 1)), t, VisitBucket(start, n));
      }
    }
  }

  /** The minute of a client whose limit was lowered frees only when the later requests leave it. */
  lemma OverfullMinute(start: real, now: real)
    requires start + 30.0 <= now
    ensures var s := VisitStamps(start, 11);
            && |s| == 11 && (|Recent(s, now - MINUTE)| < 10 <==> now >= start + 90.0)
            && |Recent(s, now - HOUR)| <= 11
            && (now < start + 60.0 ==> Recent(s, now - MINUTE) == s)
  {
    var s, cutoff := VisitStamps(start, 11), now - MINUTE;
    VisitStampsAre(start, 11, if start <= cutoff < start + 30.0 then cutoff else start);
    RecentTwice(s, now - HOUR, cutoff);
    if cutoff < start {
      AllRecent(s, cutoff);
    } else if cutoff >= start + 30.0 {
      NoneRecent(s, cutoff);
    }
  }

  lemma {:induction false} NoneRecent(s: seq<real>, cutoff: real)
    requires forall x :: x in s ==> x <= cutoff
    ensures Recent(s, cutoff) == []
  {
    if s != [] {
      var n := |s| - 1;
      assert s[n] in s;
      forall x | x in s[..n] ensures x <= cutoff {
        assert x in s;
      }
      NoneRecent(s[..n], cutoff);
    }
  }

  lemma LoweredAdvice(start: real)
    ensures RetryAfter(VisitStamps(start, 11), MINUTE, start + 30.0) == 30
  {
    VisitStampsAre(start, 11, start);
    MinimumIs(VisitStamps(start, 11), start);
    assert (30.0).Floor == 30;
  }

  lemma OverfullMinuteWaits(start: real, x: real)
    requires x >= 0.0
    ensures var b, now := VisitBucket(start, 11), start + 30.0;
            && Use(LOW, b, now).1.retryAfter == Some(30)
            && (Use(LOW, Use(LOW, b, now).0, now + x).1.allowed <==> x >= 60.0)
  {
    var b, now := VisitBucket(start, 11), start + 30.0;
    assert |b.minute| == 11 && Recent(b.minute, now - MINUTE) == b.minute by {
      OverfullMinute(start, now);
    }
    assert |Recent(b.hour, now + x - HOUR)| <= 11 && (|Recent(b.minute, now + x - MINUTE)| < 10 <==> x >= 60.0) by {
      OverfullMinute(start, now + x);
    }
    assert Refill(LOW, b, now + x) >= 1.0 by {
      LowRate(b.lastUpdate, now + x);
    }
    LoweredAdvice(start);
    MinuteFreesIff(LOW, b, now, x, 30);
  }

  /** After the limit was lowered below what the list holds, one timestamp leaving makes no room: a
      client told to wait thirty seconds has to wait sixty. */
  lemma LoweredLimitMisleads(client: string, start: real, x: real)
    requires x >= 0.0
    ensures var b, now := VisitBucket(start, 11), start + 30.0;
            && Reaches(Visits(client, start, 11) + [Update(10, now)], client, LOW, Some(b))
            && Use(LOW, b, now).1.retryAfter == Some(30)
            && (Use(LOW, Use(LOW, b, now).0, now + x).1.allowed <==> x >= 60.0)
  {
    var b, now := VisitBucket(start, 11), start + 30.0;
    VisitsReach(client, start, 11);
    Change(Visits(client, start, 11), client, START, Some(b), 10, now);
    OverfullMinuteWaits(start, x);
  }
}
