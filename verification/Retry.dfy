/** The retry loop of backend/app/core/retry.py: exponential backoff around a circuit breaker that
    other calls use at the same time.

    The wrapped function, the random numbers, the clock and what other tasks do to the breaker
    between two of this call's steps are inputs, indexed by attempt.
 */
module Retry {
  import opened Common
  import opened Breaker

  datatype ErrorKind =
    | CircuitBreakerOpen
    | HttpStatus(code: int)
    | Other(retryable: bool)

  datatype Outcome =
    | Returns(value: int)
    | Raises(kind: ErrorKind, excluded: bool)

  datatype RetryConfig = RetryConfig(
    maxRetries: int,
    baseDelay: real,
    maxDelay: real,
    exponentialBase: real,
    jitter: bool,
    retryableStatusCodes: seq<int>)

  /** How a call ends: `Refused` is the breaker's own refusal, `Raised` the function's exception. */
  datatype Result =
    | Returned(value: int)
    | Refused(retryAfter: real)
    | Raised(error: Outcome)
    | RetryLogicError

  /** Everything the loop does not decide itself. */
  datatype World = World(
    call: nat -> Outcome,          // result of the function at each attempt
    random: nat -> real,           // random.random() after each attempt
    clock: nat -> real,            // time of each of this call's breaker accesses
    others: nat -> seq<Event>)     // other tasks' breaker events before each of those accesses

  predicate IsRetryable(config: RetryConfig, o: Outcome) {
    match o
    case Returns(_) => false
    case Raises(CircuitBreakerOpen, _) => false
    case Raises(HttpStatus(code), _) => code in config.retryableStatusCodes
    case Raises(Other(retryable), _) => retryable
  }

  // ---------------------------------------------------------------------------------------
  // Delays
  // ---------------------------------------------------------------------------------------

  function Pow(b: real, n: nat): real {
    if n == 0 then 1.0 else b * Pow(b, n - 1)
  }

  function Exponential(base: real, factor: real, attempt: nat): real {
    base * Pow(factor, attempt)
  }

  function Nominal(config: RetryConfig, attempt: nat): real {
    MinReal(Exponential(config.baseDelay, config.exponentialBase, attempt), config.maxDelay)
  }

  function Scale(delay: real, factor: real): real {
    delay * factor
  }

  function CalculateBackoffDelay(config: RetryConfig, attempt: nat, random: real): real {
    if config.jitter then Scale(Nominal(config, attempt), 0.5 + random) else Nominal(config, attempt)
  }

  function Sum(s: seq<real>): real {
    if s == [] then 0.0 else Sum(s[..|s| - 1]) + s[|s| - 1]
  }

  /** The sum of the first `n` delays before jitter. */
  function NominalSum(config: RetryConfig, n: nat): real {
    Sum(seq(n, i requires 0 <= i < n => Nominal(config, i)))
  }

  lemma NominalSumStep(config: RetryConfig, n: nat)
    requires n > 0
    ensures NominalSum(config, n) == NominalSum(config, n - 1) + Nominal(config, n - 1)
  {
    var s := seq(n, i requires 0 <= i < n => Nominal(config, i));
    assert s[..n - 1] == seq(n - 1, i requires 0 <= i < n - 1 => Nominal(config, i));
  }

  predicate SaneDelays(config: RetryConfig) {
    config.baseDelay >= 0.0 && config.maxDelay >= 0.0 && config.exponentialBase >= 0.0
  }

  lemma {:induction false} PowNonNegative(b: real, n: nat)
    requires b >= 0.0
    ensures Pow(b, n) >= 0.0
  {
    if n > 0 {
      PowNonNegative(b, n - 1);
    }
  }

  lemma NominalNonNegative(config: RetryConfig, n: nat)
    requires SaneDelays(config)
    ensures Nominal(config, n) >= 0.0
  {
    PowNonNegative(config.exponentialBase, n);
  }

  lemma ScaleMonotone(d: real, x: real, y: real)
    requires d >= 0.0 && x <= y
    ensures d * x <= d * y
  {
    assert d * (y - x) >= 0.0;
    assert d * (y - x) == d * y - d * x;
  }

  lemma JitterBounds(config: RetryConfig, attempt: nat, random: real)
    requires SaneDelays(config) && 0.0 <= random < 1.0
    ensures 0.5 * Nominal(config, attempt) <= CalculateBackoffDelay(config, attempt, random)
         <= 1.5 * Nominal(config, attempt)
  {
    var d := Nominal(config, attempt);
    NominalNonNegative(config, attempt);
    JitterScales(d, 0.5 + random);
  }

  lemma JitterScales(d: real, factor: real)
    requires d >= 0.0 && 0.5 <= factor <= 1.5
    ensures 0.5 * d <= Scale(d, factor) <= 1.5 * d
  {
    ScaleMonotone(d, 0.5, factor);
    ScaleMonotone(d, factor, 1.5);
  }

  /** The delay without jitter. */
  function Plain(config: RetryConfig, attempt: nat): real {
    CalculateBackoffDelay(config.(jitter := false), attempt, 0.0)
  }

  /** Delays start at the base, or at the maximum if that is smaller; each next one is the factor times the
      one before, or the maximum if that is smaller: they grow until the cap and stay there. */
  lemma DelaysGrowToCap(config: RetryConfig, attempt: nat)
    requires SaneDelays(config) && config.exponentialBase >= 1.0
    ensures Plain(config, 0) == MinReal(config.baseDelay, config.maxDelay)
    ensures Plain(config, attempt + 1) == MinReal(config.exponentialBase * Plain(config, attempt), config.maxDelay)
    ensures 0.0 <= Plain(config, attempt) <= Plain(config, attempt + 1) <= config.maxDelay
  {
    PlainIsCapped(config, 0);
    UncappedStarts(config);
    PlainIsCapped(config, attempt);
    PlainIsCapped(config, attempt + 1);
    UncappedGrows(config, attempt);
    NextCapped(config.exponentialBase, Uncapped(config, attempt), config.maxDelay,
               Plain(config, attempt), Plain(config, attempt + 1));
  }

  lemma PlainIsCapped(config: RetryConfig, attempt: nat)
    ensures Plain(config, attempt) == MinReal(Uncapped(config, attempt), config.maxDelay)
  {
  }

  function Uncapped(config: RetryConfig, attempt: nat): real {
    Exponential(config.baseDelay, config.exponentialBase, attempt)
  }

  lemma UncappedStarts(config: RetryConfig)
    ensures Uncapped(config, 0) == config.baseDelay
  {
  }

  lemma UncappedGrows(config: RetryConfig, attempt: nat)
    requires SaneDelays(config)
    ensures Uncapped(config, attempt) >= 0.0
    ensures Uncapped(config, attempt + 1) == config.exponentialBase * Uncapped(config, attempt)
  {
    PowNonNegative(config.exponentialBase, attempt);
    Reorder(config.baseDelay, config.exponentialBase, Pow(config.exponentialBase, attempt));
  }

  lemma Reorder(x: real, y: real, z: real)
    ensures x * (y * z) == y * (x * z)
    ensures x >= 0.0 && z >= 0.0 ==> x * z >= 0.0
  {
  }

  lemma NextCapped(b: real, x: real, cap: real, p: real, q: real)
    requires b >= 1.0 && x >= 0.0 && cap >= 0.0
    requires p == MinReal(x, cap) && q == MinReal(b * x, cap)
    ensures q == MinReal(b * p, cap) && 0.0 <= p <= q <= cap
  {
    ScaleMonotone(x, 1.0, b);
    ScaleMonotone(cap, 1.0, b);
  }

  /** Whatever the factor, the delay without jitter is the exponential one, or the maximum if that is
      smaller. */
  lemma CapHolds(config: RetryConfig, attempt: nat)
    ensures var d, exponential := Plain(config, attempt), config.baseDelay * Pow(config.exponentialBase, attempt);
            d <= config.maxDelay && d <= exponential && (d == config.maxDelay || d == exponential)
  {
  }

  /** Jitter spreads the delay evenly from half of it to one and a half times. */
  lemma JitterSpreads(config: RetryConfig, attempt: nat, random: real)
    requires config.jitter
    ensures CalculateBackoffDelay(config, attempt, 0.5) == Plain(config, attempt)
    ensures CalculateBackoffDelay(config, attempt, random) - CalculateBackoffDelay(config, attempt, 0.0)
         == random * Plain(config, attempt)
    ensures SaneDelays(config) && 0.0 <= random < 1.0 ==>
              0.5 * Plain(config, attempt) <= CalculateBackoffDelay(config, attempt, random)
              <= 1.5 * Plain(config, attempt)
  {
    if SaneDelays(config) && 0.0 <= random < 1.0 {
      JitterBounds(config, attempt, random);
    }
  }

  lemma {:induction false} NominalSumGrows(config: RetryConfig, n: nat, m: nat)
    requires SaneDelays(config) && n <= m
    ensures NominalSum(config, n) <= NominalSum(config, m)
    decreases m
  {
    if n < m {
      NominalSumGrows(config, n, m - 1);
      NominalSumStep(config, m);
      NominalNonNegative(config, m - 1);
    }
  }

  /** How far a sum of delays is below the closed form `a * (b^n - 1) / (b - 1)` of the geometric
      series, times `b - 1`; `p` stands for `b^n`. */
  function Room(a: real, b: real, sum: real, p: real): real {
    a * (p - 1.0) - sum * (b - 1.0)
  }

  ghost predicate NextTerm(a: real, b: real, p: real, p': real, delay: real) {
    p' == b * p && delay <= a * p
  }

  lemma {:induction false} SeriesBound(a: real, b: real, powers: seq<real>, delays: seq<real>)
    requires b > 1.0 && |powers| == |delays| + 1 && powers[0] == 1.0
    requires forall i :: 0 <= i < |delays| ==> NextTerm(a, b, powers[i], powers[i + 1], delays[i])
    ensures Room(a, b, Sum(delays), powers[|delays|]) >= 0.0
    decreases |delays|
  {
    if delays != [] {
      var n := |delays| - 1;
      SeriesBound(a, b, powers[..|delays|], delays[..n]);
      assert NextTerm(a, b, powers[n], powers[n + 1], delays[n]);
      RoomGrows(a, b, powers[n], Sum(delays[..n]), delays[n]);
    }
  }

  lemma PowerCapsDelay(config: RetryConfig, i: nat)
    ensures NextTerm(config.baseDelay, config.exponentialBase,
                     Pow(config.exponentialBase, i), Pow(config.exponentialBase, i + 1), Nominal(config, i))
  {
  }

  /** The sum of the delays never exceeds the closed form of the geometric series. */
  lemma GeometricBound(config: RetryConfig, n: nat)
    requires config.exponentialBase > 1.0
    ensures Room(config.baseDelay, config.exponentialBase, NominalSum(config, n), Pow(config.exponentialBase, n))
         >= 0.0
  {
    var a, b := config.baseDelay, config.exponentialBase;
    var delays := seq(n, i requires 0 <= i < n => Nominal(config, i));
    var powers := seq(n + 1, i requires 0 <= i <= n => Pow(b, i));
    forall i | 0 <= i < n ensures NextTerm(a, b, powers[i], powers[i + 1], delays[i]) {
      PowerCapsDelay(config, i);
    }
    SeriesBound(a, b, powers, delays);
  }

  lemma RoomGrows(a: real, b: real, p: real, sum: real, next: real)
    requires b > 1.0 && next <= a * p
    ensures Room(a, b, sum + next, b * p) >= Room(a, b, sum, p)
  {
    ScaleMonotone(b - 1.0, next, a * p);
    assert (sum + next) * (b - 1.0) == sum * (b - 1.0) + (b - 1.0) * next;
    assert (b - 1.0) * (a * p) == a * (b * p) - a * p;
    assert a * (p - 1.0) == a * p - a;
    assert a * (b * p - 1.0) == a * (b * p) - a;
  }

  // ---------------------------------------------------------------------------------------
  // This call's part in the breaker's history
  // ---------------------------------------------------------------------------------------

  datatype Owner = Mine | Theirs
  type History = seq<(Owner, Event)>

  ghost function Events(h: History): seq<Event> {
    seq(|h|, i requires 0 <= i < |h| => h[i].1)
  }

  ghost function Own(h: History): seq<Event> {
    if h == [] then []
    else Own(h[..|h| - 1]) + if h[|h| - 1].0 == Mine then [h[|h| - 1].1] else []
  }

  lemma OwnSnoc(h: History, o: Owner, e: Event)
    ensures Own(h + [(o, e)]) == Own(h) + if o == Mine then [e] else []
    ensures Events(h + [(o, e)]) == Events(h) + [e]
  {
    assert (h + [(o, e)])[..|h|] == h;
  }

  /** The accesses of a call that asked for admission `checks` times and then told `verdict`. */
  ghost predicate IsAccessLog(own: seq<Event>, w: World, checks: nat, verdict: seq<Event>) {
    && |own| == checks + |verdict|
    && (forall i :: 0 <= i < checks ==> own[i] == Check(w.clock(i)))
    && own[checks..] == verdict
  }

  lemma LogCheck(own: seq<Event>, w: World, checks: nat)
    requires IsAccessLog(own, w, checks, [])
    ensures IsAccessLog(own + [Check(w.clock(checks))], w, checks + 1, [])
  {
  }

  lemma LogVerdict(own: seq<Event>, w: World, checks: nat, e: Event)
    requires IsAccessLog(own, w, checks, [])
    ensures IsAccessLog(own + [e], w, checks, [e])
  {
  }

  /** Each of this call's first `n` admission checks in `h` was granted; the breaker's events
      before the call were `start`. */
  ghost predicate Granted(c: Config, start: seq<Event>, h: History, n: int) {
    forall i :: 0 <= i < n <= |h| && h[i].0 == Mine && h[i].1.Check? ==>
      Gate(c, Run(c, start + Events(h[..i])), h[i].1.at).1 == None
  }

  lemma GrantedExtends(c: Config, start: seq<Event>, h: History, h': History)
    requires h <= h' && Granted(c, start, h, |h|)
    ensures Granted(c, start, h', |h|)
  {
    forall i | 0 <= i < |h| && h'[i].0 == Mine && h'[i].1.Check?
      ensures Gate(c, Run(c, start + Events(h'[..i])), h'[i].1.at).1 == None
    {
      assert h'[..i] == h[..i] && h'[i] == h[i];
    }
  }

  /** What this call tells the breaker when it ends. */
  ghost function Verdict(r: Result, at: real): seq<Event> {
    match r
    case Returned(_) => [Success(at)]
    case Raised(Raises(kind, excluded)) => if kind == CircuitBreakerOpen then [] else [Failure(excluded, at)]
    case _ => []
  }

  /** The breaker's events since `start` are `h`; this call's part in it is `checks` admission checks,
      then `verdict`; those of them among the first `granted` events of `h` were granted. */
  ghost predicate Accounted(
      c: Config, events: seq<Event>, start: seq<Event>, h: History,
      w: World, checks: nat, verdict: seq<Event>, granted: int)
  {
    && events == start + Events(h)
    && IsAccessLog(Own(h), w, checks, verdict)
    && Granted(c, start, h, granted)
  }

  /** Admission checks made: one per attempt, and the refused one. */
  ghost function Checks(r: Result, attempts: nat): nat {
    if r.Refused? then attempts + 1 else attempts
  }

  /** How this call's part in the breaker's history ends. */
  ghost predicate Settled(cb: CircuitBreaker, start: seq<Event>, h: History, w: World, r: Result, attempts: nat)
    reads cb
  {
    && Accounted(cb.config, cb.events, start, h, w, Checks(r, attempts), Verdict(r, w.clock(Checks(r, attempts))),
                 if r.Refused? then |h| - 1 else |h|)
    && (r.Refused? ==>
          && h != [] && h[|h| - 1] == (Mine, Check(w.clock(attempts)))
          && Gate(cb.config, Run(cb.config, start + Events(h[..|h| - 1])), w.clock(attempts)).1 == Some(r.retryAfter))
  }

  /** Other tasks' calls run on the shared breaker. */
  method Interfere(cb: CircuitBreaker, evs: seq<Event>, ghost start: seq<Event>, ghost h: History)
    returns (ghost h': History)
    requires cb.Valid() && cb.events == start + Events(h)
    requires Granted(cb.config, start, h, |h|)
    modifies cb
    ensures cb.Valid() && cb.events == start + Events(h')
    ensures Own(h') == Own(h)
    ensures Granted(cb.config, start, h', |h'|)
  {
    h' := h;
    var i := 0;
    while i < |evs|
      invariant 0 <= i <= |evs| && cb.Valid() && cb.events == start + Events(h')
      invariant Own(h') == Own(h)
      invariant Granted(cb.config, start, h', |h'|)
    {
      match evs[i] {
        case Check(now) => var _ := cb.CheckState(now);
        case Success(now) => cb.RecordSuccess(now);
        case Failure(excluded, now) => cb.RecordFailure(excluded, now);
        case Reset(now) => cb.Reset(now);
      }
      OwnSnoc(h', Theirs, evs[i]);
      GrantedExtends(cb.config, start, h', h' + [(Theirs, evs[i])]);
      assert start + Events(h') + [evs[i]] == start + (Events(h') + [evs[i]]);
      h' := h' + [(Theirs, evs[i])];
      i := i + 1;
    }
  }

  /** One admission check of this call, after whatever the others did. */
  method Ask(cb: CircuitBreaker, w: World, attempt: nat, ghost start: seq<Event>, ghost h: History)
    returns (refused: Option<real>, ghost h': History)
    requires cb.Valid() && Accounted(cb.config, cb.events, start, h, w, attempt, [], |h|)
    modifies cb
    ensures cb.Valid()
    ensures if refused.Some? then Settled(cb, start, h', w, Refused(refused.value), attempt)
            else Accounted(cb.config, cb.events, start, h', w, attempt + 1, [], |h'|)
  {
    ghost var h0 := Interfere(cb, w.others(attempt), start, h);
    refused := cb.CheckState(w.clock(attempt));
    var e := Check(w.clock(attempt));
    OwnSnoc(h0, Mine, e);
    LogCheck(Own(h0), w, attempt);
    h' := h0 + [(Mine, e)];
    assert start + Events(h0) + [e] == start + Events(h');
    GrantedExtends(cb.config, start, h0, h');
    assert h'[..|h'| - 1] == h0;
  }

  /** This call reports its outcome, after whatever the others did. */
  method Tell(cb: CircuitBreaker, w: World, attempt: nat, r: Result, ghost start: seq<Event>, ghost h: History)
    returns (ghost h': History)
    requires cb.Valid() && Accounted(cb.config, cb.events, start, h, w, attempt, [], |h|)
    requires r.Returned? || (r.Raised? && r.error.Raises? && r.error.kind != CircuitBreakerOpen)
    modifies cb
    ensures cb.Valid() && Settled(cb, start, h', w, r, attempt)
  {
    ghost var h0 := Interfere(cb, w.others(attempt), start, h);
    var at := w.clock(attempt);
    ghost var e;
    if r.Returned? {
      e := Success(at);
      cb.RecordSuccess(at);
    } else {
      e := Failure(r.error.excluded, at);
      cb.RecordFailure(r.error.excluded, at);
    }
    OwnSnoc(h0, Mine, e);
    LogVerdict(Own(h0), w, attempt, e);
    assert Verdict(r, at) == [e];
    h' := h0 + [(Mine, e)];
    assert start + Events(h0) + [e] == start + Events(h');
    GrantedExtends(cb.config, start, h0, h');
  }

  // ---------------------------------------------------------------------------------------
  // The loop
  // ---------------------------------------------------------------------------------------

  /** `slept` are the backoff delays of failures that were all worth retrying. */
  ghost predicate Backoff(config: RetryConfig, w: World, slept: seq<real>) {
    forall i :: 0 <= i < |slept| ==>
      IsRetryable(config, w.call(i)) && slept[i] == CalculateBackoffDelay(config, i, w.random(i))
  }

  lemma BackoffExtends(config: RetryConfig, w: World, slept: seq<real>)
    requires Backoff(config, w, slept) && IsRetryable(config, w.call(|slept|))
    ensures var n := |slept|;
            Backoff(config, w, slept + [CalculateBackoffDelay(config, n, w.random(n))])
  {
  }

  /** The call stopped at the first reason to stop, and `r` names it. */
  ghost predicate StopsRight(config: RetryConfig, w: World, r: Result, attempts: nat, sleeps: nat) {
    match r
    case Returned(v) => attempts == sleeps + 1 && w.call(sleeps) == Returns(v)
    case Raised(o) =>
      && attempts == sleeps + 1 && w.call(sleeps) == o && o.Raises?
      && (IsRetryable(config, o) ==> sleeps == config.maxRetries)
    case Refused(_) => attempts == sleeps
    case RetryLogicError => attempts == sleeps == 0 && config.maxRetries < 0
  }

  /** One pass of the loop: the admission check, the call and, unless it is to be retried, the report. */
  method Attempt(
      config: RetryConfig, cb: CircuitBreaker?, w: World, attempt: nat, ghost start: seq<Event>, ghost h: History)
    returns (done: Option<Result>, ghost h': History)
    requires attempt <= config.maxRetries
    requires cb != null ==> cb.Valid() && Accounted(cb.config, cb.events, start, h, w, attempt, [], |h|)
    modifies cb
    ensures cb != null ==> cb.Valid()
    ensures match done
            case None =>
              && IsRetryable(config, w.call(attempt)) && attempt < config.maxRetries
              && (cb != null ==> Accounted(cb.config, cb.events, start, h', w, attempt + 1, [], |h'|))
            case Some(r) =>
              var attempts := if r.Refused? then attempt else attempt + 1;
              && StopsRight(config, w, r, attempts, attempt)
              && (r.Refused? ==> cb != null)
              && (cb != null ==> Settled(cb, start, h', w, r, attempts))
  {
    h' := h;
    if cb != null {
      var refused;
      refused, h' := Ask(cb, w, attempt, start, h);
      if refused.Some? {
        return Some(Refused(refused.value)), h';
      }
    }
    var outcome := w.call(attempt);
    match outcome {
      case Returns(v) =>
        if cb != null {
          h' := Tell(cb, w, attempt + 1, Returned(v), start, h');
        }
        return Some(Returned(v)), h';
      case Raises(kind, _) =>
        if kind == CircuitBreakerOpen {
          assert Verdict(Raised(outcome), w.clock(attempt + 1)) == [];
          return Some(Raised(outcome)), h';
        }
        var retryable := IsRetryable(config, outcome);
        if !retryable || attempt >= config.maxRetries {
          if cb != null {
            h' := Tell(cb, w, attempt + 1, Raised(outcome), start, h');
          }
          return Some(Raised(outcome)), h';
        }
        return None, h';
    }
  }

  /** At most `maxRetries + 1` attempts, each admitted by the breaker; exactly one outcome told to
      the breaker, or none if the call stops on an open circuit; nothing slept but the backoff. */
  method RetryAsync(config: RetryConfig, cb: CircuitBreaker?, w: World)
    returns (r: Result, attempts: nat, slept: seq<real>, ghost h: History)
    requires cb != null ==> cb.Valid()
    modifies cb
    ensures attempts <= Max(0, config.maxRetries + 1)
    ensures Backoff(config, w, slept) && |slept| <= Max(0, config.maxRetries)
    ensures StopsRight(config, w, r, attempts, |slept|)
    ensures r.Refused? ==> cb != null
    ensures cb != null ==> cb.Valid() && Settled(cb, old(cb.events), h, w, r, attempts)
  {
    attempts, slept, h := 0, [], [];
    ghost var start := if cb != null then cb.events else [];
    assert start + Events(h) == start;
    while attempts <= config.maxRetries
      invariant attempts == |slept| <= Max(0, config.maxRetries)
      invariant Backoff(config, w, slept)
      invariant cb != null ==> cb.Valid() && Accounted(cb.config, cb.events, start, h, w, attempts, [], |h|)
      decreases config.maxRetries - attempts
    {
      var attempt, done := attempts, None;
      done, h := Attempt(config, cb, w, attempt, start, h);
      if done.Some? {
        r := done.value;
        attempts := if r.Refused? then attempt else attempt + 1;
        return;
      }
      attempts := attempt + 1;
      BackoffExtends(config, w, slept);
      slept := slept + [CalculateBackoffDelay(config, attempt, w.random(attempt))];
    }
    r := RetryLogicError;
  }

  /** What a call slept without jitter: the base, then the factor times the delay before, never more than
      the maximum. */
  lemma SleepsGrowToCap(config: RetryConfig, w: World, slept: seq<real>)
    requires SaneDelays(config) && config.exponentialBase >= 1.0 && !config.jitter && Backoff(config, w, slept)
    ensures slept != [] ==> slept[0] == MinReal(config.baseDelay, config.maxDelay)
    ensures forall i :: 0 < i < |slept| ==>
              slept[i] == MinReal(config.exponentialBase * slept[i - 1], config.maxDelay)
  {
    forall i | 0 <= i < |slept| ensures slept[i] == Plain(config, i) {
      assert config.(jitter := false) == config;
    }
    forall i | 0 < i < |slept|
      ensures slept[i] == MinReal(config.exponentialBase * slept[i - 1], config.maxDelay)
    {
      DelaysGrowToCap(config, i - 1);
    }
    DelaysGrowToCap(config, 0);
  }

  /** Why a call ends with an exception, and why it went on before: an HTTP error is retried if and only if
      its status is listed, whatever its class; any other exception if and only if its class is; the
      breaker's own never. */
  lemma StopsForAReason(config: RetryConfig, w: World, r: Result, attempts: nat, slept: seq<real>)
    requires Backoff(config, w, slept) && StopsRight(config, w, r, attempts, |slept|)
    ensures forall i :: 0 <= i < |slept| ==>
              && w.call(i).Raises? && !w.call(i).kind.CircuitBreakerOpen?
              && (w.call(i).kind.HttpStatus? ==> w.call(i).kind.code in config.retryableStatusCodes)
              && (w.call(i).kind.Other? ==> w.call(i).kind.retryable)
    ensures r.Raised? ==>
              match r.error.kind
              case CircuitBreakerOpen => true
              case HttpStatus(code) => code !in config.retryableStatusCodes || |slept| == config.maxRetries
              case Other(retryable) => !retryable || |slept| == config.maxRetries
  {
    forall i | 0 <= i < |slept|
      ensures && w.call(i).Raises? && !w.call(i).kind.CircuitBreakerOpen?
              && (w.call(i).kind.HttpStatus? ==> w.call(i).kind.code in config.retryableStatusCodes)
              && (w.call(i).kind.Other? ==> w.call(i).kind.retryable)
    {
      assert IsRetryable(config, w.call(i));
    }
  }

  /** How many outcomes are among some breaker events. */
  function Outcomes(own: seq<Event>): nat {
    if own == [] then 0
    else Outcomes(own[..|own| - 1]) + if own[|own| - 1].Check? then 0 else 1
  }

  lemma {:induction false} ChecksAreNoOutcomes(own: seq<Event>)
    requires forall i :: 0 <= i < |own| ==> own[i].Check?
    ensures Outcomes(own) == 0
  {
    if own != [] {
      ChecksAreNoOutcomes(own[..|own| - 1]);
    }
  }

  /** A call tells the breaker one outcome, its last event: a success if it returned, a failure if it gave
      up; and none if it stopped on an open circuit, its own or one further down. */
  lemma OneOutcome(own: seq<Event>, w: World, r: Result, attempts: nat)
    requires IsAccessLog(own, w, Checks(r, attempts), Verdict(r, w.clock(Checks(r, attempts))))
    ensures var stopped := r.Refused? || r.RetryLogicError?
                           || (r.Raised? && (r.error.Returns? || r.error.kind.CircuitBreakerOpen?));
            && Outcomes(own) == (if stopped then 0 else 1)
            && (r.Returned? ==> own != [] && own[|own| - 1].Success?)
            && (r.Raised? && !stopped ==>
                  own != [] && own[|own| - 1].Failure? && own[|own| - 1].excluded == r.error.excluded)
  {
    var n := Checks(r, attempts);
    ChecksAreNoOutcomes(own[..n]);
    if |own| > n {
      assert own[|own| - 1] == own[n..][0];
      assert own[..|own| - 1] == own[..n];
    } else {
      assert own[..n] == own;
    }
  }

  /** The total sleep is at most one and a half times the nominal delays of all retries. */
  lemma {:induction false} TotalSleepBound(config: RetryConfig, w: World, slept: seq<real>)
    requires SaneDelays(config) && (forall i: nat :: 0.0 <= w.random(i) < 1.0)
    requires Backoff(config, w, slept) && |slept| <= config.maxRetries
    ensures 0.0 <= Sum(slept) <= 1.5 * NominalSum(config, |slept|)
    ensures Sum(slept) <= 1.5 * NominalSum(config, config.maxRetries)
    decreases |slept|
  {
    NominalSumGrows(config, |slept|, config.maxRetries);
    if slept != [] {
      var n := |slept| - 1;
      TotalSleepBound(config, w, slept[..n]);
      NominalSumStep(config, |slept|);
      NominalNonNegative(config, n);
      if config.jitter {
        JitterBounds(config, n, w.random(n));
      }
    }
  }

  /** `a + a * b + ... + a * b^(n-1)` in closed form, where `p` stands for `b^n`. */
  function Geometric(a: real, b: real, p: real): real
    requires b > 1.0
  {
    a * (p - 1.0) / (b - 1.0)
  }

  lemma CancelFactor(x: real, q: real, d: real)
    requires d > 0.0 && x * d <= q * d
    ensures x <= q
  {
  }

  lemma BelowQuotient(x: real, y: real, d: real)
    requires d > 0.0 && x * d <= y
    ensures x <= y / d
  {
    var q := y / d;
    assert q * d == y;
    CancelFactor(x, q, d);
  }

  lemma RoomMeansBelow(a: real, b: real, sum: real, p: real)
    requires b > 1.0 && Room(a, b, sum, p) >= 0.0
    ensures sum <= Geometric(a, b, p)
  {
    var y, d := a * (p - 1.0), b - 1.0;
    assert Room(a, b, sum, p) == y - sum * d;
    BelowQuotient(sum, y, d);
  }

  /** In closed form: with a growing base, at most one and a half times the geometric series
      `base * (b^n - 1) / (b - 1)` for `n` retries, whatever the cap on a single delay. */
  lemma TotalSleepClosedForm(config: RetryConfig, w: World, slept: seq<real>)
    requires SaneDelays(config) && (forall i: nat :: 0.0 <= w.random(i) < 1.0)
    requires Backoff(config, w, slept) && |slept| <= config.maxRetries && config.exponentialBase > 1.0
    ensures var b := config.exponentialBase;
            Sum(slept) <= 1.5 * Geometric(config.baseDelay, b, Pow(b, config.maxRetries))
  {
    var a, b, n := config.baseDelay, config.exponentialBase, config.maxRetries;
    TotalSleepBound(config, w, slept);
    GeometricBound(config, n);
    RoomMeansBelow(a, b, NominalSum(config, n), Pow(b, n));
  }
}
