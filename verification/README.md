# Verified models of the MCP gateway's in-memory state machines

A Dafny 4.11 project that models the parts of the gateway whose guarantees are claims about whole
runs: limits that hold in every window, logs that are neither lost nor duplicated, secrets that do
not come out again, keys that are found in time. `dafny verify dfyconfig.toml` checks everything.

Each file is one component. A component that changes fields in place is a class whose methods are
proved equal to a step function on values (`Value()`); the guarantees are then lemmas over all
sequences of such steps. Where `asyncio` or a `fetch` lets callers interleave, a step is one section
between two suspensions, and a run is any sequence of them. Clocks, random numbers, responses and
database outcomes are parameters. Floats are `real`; wall clocks and monotonic clocks do not go back.

| file | component |
|---|---|
| `Redaction.dfy` | redaction of secret values from captured output |
| `BoundedOutput.dfy` | the bounded stdout buffer |
| `RateLimit.dfy`, `RateLimiter.dfy` | one rate-limit bucket over its life; the table of buckets |
| `RetryAdvice.dfy` | what a `Retry-After` is worth |
| `SweepPeriod.dfy`, `IdlePeriod.dfy`, `McpRuns.dfy` | how long sweeps must wait, with and without changes of the limits; runs of the limiter these need |
| `CircuitBreaker.dfy`, `Retry.dfy` | the circuit breaker; the retry loop around it |
| `ActivityLog.dfy` | the batching activity logger as a concurrent protocol |
| `Jwks.dfy` | the worker's key lookup with positive and negative cache |
| `Sessions.dfy` | gateway sessions |
| `SessionPool.dfy` | the pool of MCP client sessions |
| `EmailPolicy.dfy` | the email policy cache under database failures |
| `Retention.dfy` | execution-log retention |
| `SquidAcl.dfy` | the registry's approved private hosts, from registration to the proxy's answer |
| `Common.dfy` | shared small definitions |

## What the code does not do

Places where the code falls short of what its documentation promises; the model follows the code,
and each has a lemma with a concrete input or an exact condition.

- Redaction does not remove every secret. The value `hunter2[` survives its own redaction, because
  its end is also the beginning of the marker (`Redaction.BracketedSecretLeaks`). For values without
  brackets redaction is complete if and only if none of them is the word `REDACTED`
  (`Redaction.BracketFreeExact`); for any single value, if and only if the value cannot create
  itself, that is, be laid over the marker so that the scan gets past the part before it
  (`Redaction.SingleSecretExact`). For values in a given order it suffices that none can create
  itself or one whose turn was before (`Redaction.RedactionComplete`).
- An empty write to an exactly full output buffer marks the output as truncated although nothing was
  lost (`BoundedOutput.EmptyWriteToFullBufferTruncates`).
- The breaker tests its timestamp's truth value: an open circuit refuses early calls, and recovers, if and
  only if its timestamp is not zero (`Breaker.OpenRefusesIffTimerIsNonZero`,
  `Breaker.OpenRecoversIffTimerIsNonZero`); otherwise it keeps every field until reset, however it came to
  be open (`Breaker.OpenedAtZeroStaysOpen`, with `Breaker.OpensAtZero` for the failures that open it so).
- Limits set in the course of a run hold in all runs if and only if sweeps only collect buckets idle
  for an hour (`SweepPeriod.LimitsHoldIffSweepsWait`); the application waits a day. For every shorter
  period there is a run under limits an administrator can set, legal but for its sweep, that breaks
  the hourly limit (`SweepPeriod.ShortSweepsBreakTheHour`). For limits that do not change the exact period is
  2634 seconds (`IdlePeriod.UnchangedLimitsHoldIffSweepsWait`).
- The advised `Retry-After` is right if and only if, when it has passed, both windows have room and
  there is a token (`RetryAdvice.AdviceRightIff`). For a window that just became full this means that the
  oldest timestamp leaves after a whole number of seconds or less than one, otherwise the advice is
  less than a second short (`WindowAdvice`, with runs `RoundedDownIsTooShort` and `RoundedDownHour`). For
  want of a token one second is advised, which is right for every bucket if and only if the limit is at
  least sixty a minute (`TokenAdviceRightIff`); at ten a minute six seconds are needed
  (`OneSecondIsTooShort`). After a limit was lowered the advice can be half a minute short
  (`LoweredLimitMisleads`).
- Not every abandoned bucket is collected: one whose minute list was pruned empty by an hourly refusal
  stays for ever (`SweepPeriod.NeverCollected`; `RateBucket.SweepTakes` is the exact condition).
- `get_recent_logs(0)` returns the whole buffer (`ActivityLog.RecentLogsAreRecent`).
- The pending log queue is not bounded: producers can make it as long as they like
  (`ActivityLog.QueueIsUnbounded`); accepting an entry while the queue is at its limit or beyond is the
  only step that takes it further (`ActivityLog.ExceedsIffLogged`).
- A key-set response without `keys` is cached: every lookup of every kid then throws for five minutes
  (`Jwks.KeylessResponseThrows`), unless a later response replaces it (`Jwks.ThrowsIffKeyless` is the exact
  condition).
- The negative cache does not keep failing or overlapping requests from fetching: until a response is
  stored every lookup fetches (`Jwks.FailuresRepeat`; `Jwks.FetchesIffStale` is the exact condition). Requests
  one after the other do fetch successfully at most once in five minutes (`Jwks.FetchesAreSpaced`).
- Deleting a gateway session past its hour answers that it existed if and only if nothing has noticed the
  expiry yet (`Sessions.DeleteExact`), so the answer depends on sweeps (`Sessions.DeleteSeesSweep`, with the
  run `Sessions.ForgottenSession`).
- A check that finds the email policy cache fresh allows somebody no recent load admits if and only if
  nothing was loaded since the last invalidation, no load failed, and the process clock has not reached
  30 seconds (`EmailPolicy.FreshCheckNeverWidens`).
- Invalidating the email policy does not make a revocation immediate: a load in flight can store the
  former row afterwards (`EmailPolicy.InvalidationMayBeOvertaken`).
- A pooled session the pool has given up is initialized if and only if somebody connected it afterwards
  (`SessionPool.OrphanIffRevived`), and then nothing closes it (`SessionPool.OutsideThePool`). This can happen if
  and only if, when it is given up, somebody who was handed it has still to begin with it or is
  connecting it (`SessionPool.MayReviveIffPending`; runs: `SessionPool.EvictedWhileConnecting`,
  `SessionPool.EvictedWhileWaiting`).
- Retention keeps fewer than `n` logs of a tool when equal timestamps run across the boundary
  (`Retention.ExactlyNUnlessTied`).
- A session pool with a non-positive `max_size` still holds one session
  (`SessionPool.MCPSessionPool.GetOrCreate`).

## Model

| member | source | states |
|---|---|---|
| Redaction.RedactSecrets | sandbox/app/executor.py:1758-1769 | The loop over the secrets computes the specification `Redacted`, about which the lemmas below speak, including its early return |
| Redaction.RedactionComplete | sandbox/app/executor.py:1758-1769 | For every text: if no redactable value can create itself or one whose turn was before, the output contains none of them |
| Redaction.RedactionCompleteInAnyOrder | sandbox/app/executor.py:1758-1769 | The same for every order of the values, if none can create itself or another one |
| Redaction.OccurrenceComesFromInput | sandbox/app/executor.py:1768 | What a replacement cannot create and yet occurs in its result was already in the input, and is not the value just replaced; no occurrence straddles a marker |
| Redaction.RedactionCreatesNothing | sandbox/app/executor.py:1766-1768 | Later secrets that cannot create an absent value never make it appear |
| Redaction.GapsRebuildText | sandbox/app/executor.py:1768 | The pieces between the occurrences that the scan consumes, joined by the secret, are the whole text |
| Redaction.ReplaceJoinsGaps | sandbox/app/executor.py:1768 | Replacing is joining the same pieces by the marker, so nothing outside the consumed occurrences changes |
| Redaction.GapsAreClean | sandbox/app/executor.py:1768 | The left-to-right scan leaves no occurrence of the secret inside a piece |
| Redaction.RedactionChangesNothingElse | sandbox/app/executor.py:1758-1769 | A text without redactable values is returned unchanged |
| Redaction.ShortValuesAreIgnored | sandbox/app/executor.py:1755-1768 | Values of fewer than eight characters do not matter, whatever else is redacted |
| Redaction.BracketFreeTouches | sandbox/app/executor.py:1755-1768 | A value of at least eight characters without brackets can be laid over the marker if and only if it is `REDACTED` |
| Redaction.BracketFreeExact | sandbox/app/executor.py:1758-1769 | For values without brackets: redaction is complete on every text if and only if `REDACTED` is not one of them |
| Redaction.SingleSecretExact | sandbox/app/executor.py:1758-1769 | For any single value: redaction is complete on every text if and only if the value cannot create itself |
| Redaction.CreatingValueLeaks | sandbox/app/executor.py:1768 | For every value that can create itself there is a text from which it survives |
| Redaction.TouchingMayBeHarmless | sandbox/app/executor.py:1768 | Agreeing with the marker is not what decides: eight opening brackets overlap it and yet are always redacted |
| Redaction.BracketedSecretLeaks | sandbox/app/executor.py:1768 | A concrete value and text: `hunter2[` survives in `hunter2hunter2[` |
| BoundedOutput.SizeLimitedStringIO.Write | sandbox/app/executor.py:738-757 | One write changes buffer, flag and returned count as `WriteStep` says, and keeps the object equal to the run of all writes so far |
| BoundedOutput.BufferIsPrefix | sandbox/app/executor.py:726-757 | After any writes the buffer is their concatenation or, once truncated, its first `max_size` characters and exactly one marker; the counts sum to what was kept; truncation happens exactly if too much was written or a write found the buffer full |
| BoundedOutput.TruncatedIffTooLong | sandbox/app/executor.py:742-755 | With non-empty writes, truncated if and only if more than `max_size` characters were written |
| BoundedOutput.EmptyWriteToFullBufferTruncates | sandbox/app/executor.py:745-748 | The corner case: an empty write to a full buffer appends the marker |
| RateBucket.SlidingWindows | backend/app/middleware/rate_limit.py:151-228 | In every run of one bucket, with sweeps of at least an hour, at any time the admissions of the last minute and hour are within the limits |
| RateBucket.RunRemembers | backend/app/middleware/rate_limit.py:151-157 | Although lists are pruned lazily and vanish with collected buckets, they know every admission that still counts |
| RateBucket.TokenBound | backend/app/middleware/rate_limit.py:194-226 | In any interval a bucket admits at most one burst plus what the interval refills, although new buckets start with ten tokens and refusals may skip the refill, if sweeps wait until what a new bucket holds has been refilled |
| RateBucket.NothingWithoutLimit | backend/app/middleware/rate_limit.py:171-226 | A non-positive limit per minute, per hour or per burst admits nothing, ever |
| RateBucket.RemainingIsLeft | backend/app/middleware/rate_limit.py:171-184 | In every run an admitted request is told exactly how many more its last minute and hour have room for, a refused one at most one less |
| RateBucket.SweepTakes | backend/app/middleware/rate_limit.py:266-277 | In every run a sweep takes an idle bucket if and only if its minute list is not empty or its hour list is |
| SweepPeriod.ShortSweepsBreakTheHour | backend/app/middleware/rate_limit.py:123-141 | For every idle period below 3600 seconds a run with limits set to 10000 and later 10 a minute, legal but for its sweep, breaks the hourly limit |
| SweepPeriod.LimitsHoldIffSweepsWait | backend/app/middleware/rate_limit.py:252-285 | Over all runs, clients, groups and times, the limits in force hold if and only if sweeps wait 3600 seconds |
| SweepPeriod.NeverCollected | backend/app/middleware/rate_limit.py:266-277 | A reachable bucket that no sweep ever takes |
| IdlePeriod.WindowsHold | backend/app/middleware/rate_limit.py:151-285 | With unchanged limits both windows hold at every time of every run of a bucket, if two bursts and the refill of the hour less the idle time stay within the hourly limit |
| IdlePeriod.RunGrown | backend/app/middleware/rate_limit.py:151-285 | In every such run the admissions of a bucket's predecessors are older than the bucket by the idle time, and its own are remembered and paid for |
| IdlePeriod.UnchangedLimitsHold | backend/app/middleware/rate_limit.py:159-285 | The same for every client and group of the whole limiter |
| IdlePeriod.ShorterSweepsBreakTheHour | backend/app/middleware/rate_limit.py:123-285 | At ten requests a minute, for every period below 2634 seconds, a run lets 171 requests through in an hour where 170 are allowed |
| IdlePeriod.UnchangedLimitsHoldIffSweepsWait | backend/app/middleware/rate_limit.py:68-285 | For the program's own limits, unchanged, both windows hold in all runs if and only if sweeps wait 2634 seconds |
| RetryAdvice.AdviceRightIff | backend/app/middleware/rate_limit.py:171-221 | Whatever the refusal, a request repeated after the advised wait is admitted if and only if by then both lists have shrunk below the limits and a token has come in |
| RetryAdvice.RetryAdmittedIff | backend/app/middleware/rate_limit.py:171-221 | The same after any other wait: a refusal costs nothing |
| RetryAdvice.RefusedByMinute | backend/app/middleware/rate_limit.py:171-178 | A full minute is what a request is refused for first, and its oldest timestamp sets the advice |
| RetryAdvice.RefusedByHour | backend/app/middleware/rate_limit.py:180-187 | Then a full hour, likewise |
| RetryAdvice.WindowAdvice | backend/app/middleware/rate_limit.py:171-192 | After a refusal by a list that just became full the advised wait makes room if and only if the oldest timestamp leaves after a whole number of seconds or at most one; one second more always does |
| RetryAdvice.TokenAdvice | backend/app/middleware/rate_limit.py:194-221 | After a refusal for want of a token, a repeated request is admitted if and only if what is left and what flows in meanwhile make one token, and the burst allows one |
| RetryAdvice.TokenAdviceRightIff | backend/app/middleware/rate_limit.py:219-221 | The advised second suffices for every bucket if and only if the limit is at least sixty a minute |
| RetryAdvice.OneSecondIsTooShort | backend/app/middleware/rate_limit.py:219-221 | A run at ten a minute after which one second is advised and six are needed |
| RetryAdvice.RoundedDownIsTooShort | backend/app/middleware/rate_limit.py:171-178 | A run after which 29 seconds are advised and a request is admitted exactly from 29.5 seconds on |
| RetryAdvice.RoundedDownHour | backend/app/middleware/rate_limit.py:180-187 | A run after which 2579 seconds are advised and a request is admitted exactly from 2579.5 seconds on |
| RetryAdvice.LoweredLimitMisleads | backend/app/middleware/rate_limit.py:123-178 | A run in which the limit is lowered, 30 seconds are advised, and a request is admitted exactly from 60 seconds on |
| RateLimiting.MatchFrom | backend/app/middleware/rate_limit.py:116-121 | The entry found starts the path and none before it does; nothing is found if and only if no entry starts the path |
| RateLimiting.RateLimiter.GetConfigForPath | backend/app/middleware/rate_limit.py:116-121 | The loop finds the limits of the first matching prefix, or the fallback |
| McpRuns.PathsJudged | backend/app/middleware/rate_limit.py:68-149 | In every run, whatever limits are set, each path is judged by its own group's limits, the MCP health checks before the MCP path, and only the MCP limits ever change |
| McpRuns.HealthChecksAreApart | backend/app/middleware/rate_limit.py:68-149 | MCP health checks keep 30 a minute, 600 an hour, and share no bucket with any other path |
| RateLimiting.McpLimitsMean | backend/app/middleware/rate_limit.py:123-141 | The hourly limit is seventeen minutes' worth, the burst a tenth rounded down but at least five |
| RateLimiting.RateLimiter.GetBucketKey | backend/app/middleware/rate_limit.py:143-149 | The loop builds the key of the same first match |
| RateLimiting.RateLimiter.UpdateMcpConfig | backend/app/middleware/rate_limit.py:123-141 | Only the limits of the MCP prefix change; buckets stay |
| RateLimiting.RateLimiter.Judge | backend/app/middleware/rate_limit.py:165-228 | The step-by-step judgement of a request equals the specification `Use` |
| RateLimiting.RateLimiter.CheckRateLimit | backend/app/middleware/rate_limit.py:159-228 | The decision and the whole new table, other buckets untouched |
| RateLimiting.RateLimiter.CleanupInactiveBuckets | backend/app/middleware/rate_limit.py:252-285 | Exactly the inactive buckets go, and the result counts them |
| RateLimiting.KeyIdentifies | backend/app/middleware/rate_limit.py:143-149 | A bucket key determines client and path group, even for addresses with colons |
| RateLimiting.InitialWellFormed | backend/app/middleware/rate_limit.py:68-104 | The configured prefixes are distinct, have no colon and differ from the fallback's group name |
| RateLimiting.GroupDeterminesLimits | backend/app/middleware/rate_limit.py:116-149 | Requests that share a bucket are judged by the same limits |
| RateLimiting.TableRefinesBucket | backend/app/middleware/rate_limit.py:159-285 | The table's bucket and admissions for a client and group are those of a single bucket that sees only its own events |
| RateLimiting.LimitsHold | backend/app/middleware/rate_limit.py:159-228 | For every client, group and time the admissions of the last minute and hour are within the limits in force, across configuration updates and sweeps |
| RateLimiting.FixedLimitsHold | backend/app/middleware/rate_limit.py:159-228 | With fixed limits: at most `requests_per_minute` in any minute and `requests_per_hour` in any hour |
| RateLimiting.BurstsHold | backend/app/middleware/rate_limit.py:194-226 | For any fixed limits, any interval admits at most a burst plus its refill, for every client and group, and nothing if a limit is not positive |
| Breaker.CircuitBreaker.CheckState | backend/app/core/retry.py:133-148 | Refusal, `retry_after` and new state as `Gate` says; the fields stay those of the run so far |
| Breaker.CircuitBreaker.RecordSuccess | backend/app/core/retry.py:150-161 | New state as `AfterSuccess` says; the fields stay those of the run so far |
| Breaker.CircuitBreaker.RecordFailure | backend/app/core/retry.py:163-191 | New state as `AfterFailure` says, excluded exceptions ignored; the fields stay those of the run so far |
| Breaker.CircuitBreaker.Reset | backend/app/core/retry.py:127-131 | Back to the initial state |
| Breaker.CountersMeanTheRun | backend/app/core/retry.py:133-191 | In every reachable state the counters count the failures since the last fresh start and the successes since half-opening, and stay below the thresholds |
| Breaker.StateChangesExactly | backend/app/core/retry.py:133-191 | Over all runs, exactly when the circuit closes (with the `success_threshold`-th success since half-opening, or a reset), opens and becomes half-open |
| Breaker.FailuresSetTimer | backend/app/core/retry.py:163-191 | An excluded exception changes nothing; a counted one sets the timer unless the circuit is open |
| Breaker.OpeningsAreSpaced | backend/app/core/retry.py:133-191 | For any interleaving of in-flight calls two successive openings are at least the timeout apart |
| Breaker.OpeningsAreRare | backend/app/core/retry.py:133-191 | `n` further openings take at least `n` timeouts |
| Breaker.TimerShowsOpening | backend/app/core/retry.py:163-191 | While open the timer shows the last opening; afterwards that opening is a full timeout ago |
| Breaker.OpenIsFrozen | backend/app/core/retry.py:133-191 | Late successes, late failures and early checks change no field of an open circuit |
| Breaker.OpenGate | backend/app/core/retry.py:136-148 | Every check before expiry is refused with the exact remaining time; the first at or after it half-opens |
| Breaker.OpenRefusesIffTimerIsNonZero | backend/app/core/retry.py:138 | An open circuit refuses before expiry if and only if its timestamp is not zero |
| Breaker.OpenRecoversIffTimerIsNonZero | backend/app/core/retry.py:136-148 | Some check half-opens an open circuit if and only if its timestamp is not zero |
| Breaker.OpenedAtZeroStaysOpen | backend/app/core/retry.py:133-191 | After any run that leaves the circuit open with timestamp zero, nothing but a reset changes a field, and no check is refused |
| Breaker.OpensAtZero | backend/app/core/retry.py:163-191 | A failure opens the circuit so if and only if it comes at clock zero and reaches the threshold or finds the circuit half-open |
| Retry.RetryAsync | backend/app/core/retry.py:224-296 | At most `max_retries + 1` attempts, each admitted by the breaker as other calls left it; exactly one outcome recorded, or none on an open circuit; stops at the first reason to stop; sleeps only the backoff of retryable failures |
| Retry.Attempt | backend/app/core/retry.py:246-296 | One pass of the loop: refused as the breaker's state at that moment demands, or called and reported once, or to be retried only if retryable and not the last |
| Retry.DelaysGrowToCap | backend/app/core/retry.py:209-221 | Without jitter the first delay is the smaller of base and maximum; each next one is the factor times the one before, or the maximum if that is smaller |
| Retry.CapHolds | backend/app/core/retry.py:214-215 | For any factor the delay is the smaller of the exponential one and the maximum |
| Retry.SleepsGrowToCap | backend/app/core/retry.py:224-296 | The same of what a call slept |
| Retry.JitterSpreads | backend/app/core/retry.py:217-219 | Jitter spreads the delay evenly from half of it to one and a half times |
| Retry.StopsForAReason | backend/app/core/retry.py:265-285 | An HTTP error is retried if and only if its status is listed, any other exception if and only if its class is, the breaker's own never |
| Retry.OneOutcome | backend/app/core/retry.py:252-285 | The breaker is told one outcome, a success if the call returned and a failure if it gave up; none if it stopped on an open circuit |
| Retry.JitterBounds | backend/app/core/retry.py:209-221 | A jittered delay lies between one half and one and a half times the delay that `CapHolds` determines |
| Retry.TotalSleepBound | backend/app/core/retry.py:209-296 | The total sleep is at most one and a half times the sum of the nominal delays |
| Retry.GeometricBound | backend/app/core/retry.py:209-221 | The sum of the capped exponential delays stays below the geometric series |
| Retry.TotalSleepClosedForm | backend/app/core/retry.py:209-296 | Total sleep at most `1.5 * base * (b^n - 1) / (b - 1)` for a base `b > 1` and `n` retries |
| ActivityLog.ActivityLoggerService.Log | backend/app/services/activity_logger.py:109-131 | The locked section queues the entry, fills the broadcast buffer and schedules a flush if none is |
| ActivityLog.ActivityLoggerService.TakeBatch | backend/app/services/activity_logger.py:376-385 | The flusher takes the whole queue, or ends if it is empty; without a session factory the batch leaves the system as not persisted |
| ActivityLog.ActivityLoggerService.CommitBatch | backend/app/services/activity_logger.py:387-415 | A commit persists the whole batch, or nothing of it and leaves it to be put back, as `Step` says |
| ActivityLog.ActivityLoggerService.RequeueBatch | backend/app/services/activity_logger.py:416-439 | The oldest part that fits goes to the front of the queue, the rest is dropped |
| ActivityLog.ActivityLoggerService.FinishFlush | backend/app/services/activity_logger.py:440-449 | The flush task ends, and a new one starts if anything is queued |
| ActivityLog.StepKeeps | backend/app/services/activity_logger.py:122-131 | Every step keeps: one flusher, no lost wake-up, the ledger of entries, the broadcast buffer |
| ActivityLog.EveryRunKeepsTheLog | backend/app/services/activity_logger.py:365-449 | For all interleavings of producers and failing or succeeding flushes: persisted, in-flight and pending entries are a duplicate-free subsequence of the accepted ones; each missing one was dropped exactly once, by capacity or for lack of a session factory; the lock is never free with a queue nobody will flush |
| ActivityLog.EveryReachableStateKeepsTheLog | backend/app/services/activity_logger.py:45-54 | The same for every state reachable from a new service |
| ActivityLog.PersistedAreCommitted | backend/app/services/activity_logger.py:376-407 | Over any run the database gains exactly the batches whose commit succeeded, in order; what is discarded are exactly the queues taken without a session factory |
| ActivityLog.NothingWithoutCommit | backend/app/services/activity_logger.py:387-415 | A run without a successful commit saves nothing |
| ActivityLog.FailedBatchReturns | backend/app/services/activity_logger.py:407-439 | A failed commit and its re-queue, whatever is logged in between, leave the database as it was and the batch at the front of the queue, in order, as far as it fits |
| ActivityLog.AcceptedAreLogged | backend/app/services/activity_logger.py:86-125 | Over any run the accepted entries are those `log` was called with, in order |
| ActivityLog.CapacityRule | backend/app/services/activity_logger.py:416-439 | A failed batch loses entries exactly if the queue would exceed 1000, then only its newest |
| ActivityLog.ExceedsIffLogged | backend/app/services/activity_logger.py:122-131 | A step takes the queue beyond 1000 and beyond its length if and only if it accepts an entry while the queue is at 1000 or more |
| ActivityLog.QueueIsUnbounded | backend/app/services/activity_logger.py:122-131 | While the flusher waits, any number of entries queue up |
| ActivityLog.QueueDrains | backend/app/services/activity_logger.py:365-449 | From any reachable state, with a working database, the flusher's own next steps persist everything on its way, in order, and leave no task; a failed batch about to be put back loses only what does not fit |
| ActivityLog.AllIsSavable | backend/app/services/activity_logger.py:416-439 | That is all of it if and only if no failed batch is too large for the queue |
| ActivityLog.RecentLogsAreRecent | backend/app/services/activity_logger.py:82-84 | The last `n` accepted entries, if and only if `n` is positive or nothing was logged |
| ActivityLog.NegativeCountDrops | backend/app/services/activity_logger.py:82-84 | A negative count drops that many of the oldest entries |
| Jwks.KeyCache.BeginLookup | worker/src/access-handler.ts:319-349 | Everything up to the fetch, as `Begin` says, including the JavaScript truth test of the timestamp |
| Jwks.KeyCache.FinishLookup | worker/src/access-handler.ts:350-384 | What a response does to both caches and to the answer, as `Finish` says |
| Jwks.LookupAnswers | worker/src/access-handler.ts:315-349 | What every lookup of every run answers, by the latest response that did not fail: the first key with the kid, or nothing |
| Jwks.FetchAnswers | worker/src/access-handler.ts:350-384 | What every fetch answers: the first key with the kid in its own response; nothing if it failed, has no `keys` or lacks the kid, whatever was cached |
| Jwks.EveryKeyWasServed | worker/src/access-handler.ts:305-384 | Over any run, every key answered was served by upstream under that kid: for a lookup less than five minutes before, for a fetch between the start of its request and its arrival |
| Jwks.WithdrawnKeyIsNeverAnswered | worker/src/access-handler.ts:305-384 | A withdrawn key is the answer neither to a fetch that began afterwards nor to a lookup five minutes later |
| Jwks.BlockedIffNoted | worker/src/access-handler.ts:319-348 | Over any run, the negative cache refuses a kid if and only if it was found missing less than a minute ago, however the table was pruned |
| Jwks.KeyCache.NoteMissing | worker/src/access-handler.ts:341-347 | The pruning loop leaves exactly the unexpired negative entries |
| Jwks.RotationBound | worker/src/access-handler.ts:305-384 | If upstream serves a key from time T on, no lookup from T + 359998 ms on is refused, whatever was cached and however lookups interleave: it fetches unless a response is less than five minutes old, and then finds the key there unless that response had no `keys` |
| Jwks.ThrowsIffKeyless | worker/src/access-handler.ts:319-330 | A lookup throws if and only if its kid is not negatively cached and the latest response that did not fail had no `keys` and was requested less than five minutes ago |
| Jwks.KeylessResponseThrows | worker/src/access-handler.ts:358-361 | After one such response every lookup throws until five minutes have passed, and fetches from then on |
| Jwks.FetchesIffStale | worker/src/access-handler.ts:319-353 | A lookup fetches if and only if its kid is not negatively cached and no stored response is less than five minutes old |
| Jwks.FetchesAreSpaced | worker/src/access-handler.ts:305-384 | However many kids are asked for, sequential requests fetch successfully at most once in five minutes |
| Jwks.FailuresRepeat | worker/src/access-handler.ts:350-384 | Whatever fetches failed or are in flight, until a response is stored every lookup fetches |
| Jwks.NegativeCacheIsBounded | worker/src/access-handler.ts:341-347 | After any run the negative cache holds at most a hundred kids or, if more, those noted in the minute before the latest note |
| Jwks.RotationBoundIsTight | worker/src/access-handler.ts:305-384 | One millisecond earlier a lookup may still be refused |
| Jwks.FetchFinds | worker/src/access-handler.ts:350-380 | A fetch whose key set upstream serves with the key finds it |
| Jwks.AnswersAreRecent | worker/src/access-handler.ts:305-349 | Every cached key handed out was served by upstream less than five minutes earlier |
| Jwks.WithdrawnKeyIsRefused | worker/src/access-handler.ts:305-349 | A key withdrawn upstream is no longer handed out five minutes later |
| Jwks.PruningIsInvisible | worker/src/access-handler.ts:305-384 | Any run answers as it would without pruning |
| Sessions.SessionTable.ValidateSession | backend/app/api/mcp_gateway.py:91-104 | Lazy expiry and touch, as `Validate` says |
| Sessions.SessionTable.CreateSession | backend/app/api/mcp_gateway.py:107-119 | The new session is in, all expired ones are out |
| Sessions.SessionTable.CleanupExpiredSessions | backend/app/api/mcp_gateway.py:81-88 | Exactly the expired sessions go, and the result counts them |
| Sessions.SessionTable.DeleteSession | backend/app/api/mcp_gateway.py:122-128 | Removes the session and tells whether it was there |
| Sessions.ValidatesIffTouchedRecently | backend/app/api/mcp_gateway.py:71-128 | Over any run a session validates if and only if it was created, not deleted since, and last touched at most 3600 seconds ago |
| Sessions.NoIdNeverValidates | backend/app/api/mcp_gateway.py:91-94 | Without an id nothing validates and nothing changes |
| Sessions.SweepsAreUnobservable | backend/app/api/mcp_gateway.py:81-104 | Leaving all periodic sweeps out of a run changes no validation |
| Sessions.DeleteExact | backend/app/api/mcp_gateway.py:81-128 | Over any run, deletion answers that a session existed if and only if it was touched, not deleted, and nothing noticed its expiry since |
| Sessions.DeleteAnswers | backend/app/api/mcp_gateway.py:122-128 | Within the hour the answer is the history's; with a sweep just before, it is so if and only if the session is not past its hour |
| Sessions.DeleteSeesSweep | backend/app/api/mcp_gateway.py:122-128 | A sweep just before a deletion changes its answer if and only if the session is past its hour and nothing has noticed |
| Sessions.ForgottenSession | backend/app/api/mcp_gateway.py:122-128 | A run in which it does |
| SessionPool.PoolEntry.BeginUse | sandbox/app/mcp_session_pool.py:85-91 | An initialized session is in use at once, any other has to be connected first; a step of the entry's life |
| SessionPool.PoolEntry.FinishConnecting | sandbox/app/mcp_session_pool.py:87-91 | Connecting succeeds, whatever happened to the entry meanwhile, or changes neither flag nor time of last use; a step of the entry's life |
| SessionPool.MCPSessionPool.GetOrCreate | sandbox/app/mcp_session_pool.py:147-170 | A pooled session of at most the maximal age is handed out again and nothing changes; otherwise a new one is made; nothing is given up while there is room and the requested one is not too old; a full pool gives up one least recently used entry; the pool keeps its bound, and exactly what is given up is closed |
| SessionPool.UnexpiredMeans | sandbox/app/mcp_session_pool.py:154-160 | The requested entry stays if and only if it is at most the maximal age old, the others always |
| SessionPool.MCPSessionPool.EvictLru | sandbox/app/mcp_session_pool.py:172-180 | The victim has the minimal time of last use; it alone is removed and closed |
| SessionPool.MCPSessionPool.Evict | sandbox/app/mcp_session_pool.py:182-188 | Removes and closes exactly the entry under the key, if any, be it the one that failed or its successor |
| SessionPool.OrphanIffRevived | sandbox/app/mcp_session_pool.py:65-127 | Over any life of an entry: outside the pool it is initialized if and only if somebody connected it after it was given up, in the pool if and only if somebody ever did |
| SessionPool.OutsideThePool | sandbox/app/mcp_session_pool.py:85-127 | Outside the pool only connecting changes that, and nothing ends it |
| SessionPool.MayReviveIffPending | sandbox/app/mcp_session_pool.py:85-188 | A given-up entry can come back to life if and only if somebody who was handed it had still to begin with it or was connecting it |
| SessionPool.EvictedWhileConnecting | sandbox/app/mcp_session_pool.py:85-99 | It happens to an entry a caller is connecting |
| SessionPool.EvictedWhileWaiting | sandbox/app/mcp_session_pool.py:101-106 | It happens to an initialized entry a caller waits for |
| SessionPool.MCPSessionPool.EvictBySourceUrl | sandbox/app/mcp_session_pool.py:293-302 | Removes and closes exactly the entries of that url |
| SessionPool.VictimIsIdle | sandbox/app/mcp_session_pool.py:172-180 | If fewer sessions than the pool holds were used since a point in time, none of those is given up |
| EmailPolicy.EmailPolicyCache.FinishLoad | backend/app/services/email_policy_cache.py:52-108 | What a load stores, or keeps on a database error, as `AfterLoad` says |
| EmailPolicy.LoadsIffNoRecentSuccess | backend/app/services/email_policy_cache.py:103-112 | Over any run, a check loads if and only if the latest successful load since the last invalidation is 30 seconds old or, without one, the clock has reached 30; failed loads postpone nothing |
| EmailPolicy.EmailPolicyCache.Invalidate | backend/app/services/email_policy_cache.py:114-120 | Back to the initial state |
| EmailPolicy.EmailPolicyCache.Decide | backend/app/services/email_policy_cache.py:126-178 | The verdict, refusal reason included, as `Judge` says |
| EmailPolicy.EmailPolicyCache.BeginCheck | backend/app/services/email_policy_cache.py:110-178 | A check on a fresh cache ends with that verdict, any other one has to load first |
| EmailPolicy.StoredRowJudges | backend/app/services/email_policy_cache.py:52-178 | What the cache makes of a configuration row admits exactly whom the row's policy admits |
| EmailPolicy.RunHolds | backend/app/services/email_policy_cache.py:52-120 | In every run the cache holds the latest successful load since the last invalidation, and its error flag means that a load failed since while no policy is held |
| EmailPolicy.RunJudges | backend/app/services/email_policy_cache.py:52-178 | After any run, exactly whom a check without load allows, in terms of the history of loads |
| EmailPolicy.RunReasons | backend/app/services/email_policy_cache.py:126-178 | After any run, exactly which reason a refusal gives |
| EmailPolicy.FreshCheckNeverWidens | backend/app/services/email_policy_cache.py:110-178 | At any clock reading a check on a fresh cache allows somebody whom no successful load less than 30 seconds old admits if and only if nothing was loaded since the last invalidation, nothing failed to load, and the clock has not reached 30 |
| EmailPolicy.RefreshedCheckNeverWidens | backend/app/services/email_policy_cache.py:52-178 | A check after a load decides by its row; if it failed, by the latest successful load, and without one it denies everybody |
| EmailPolicy.RevokedIsRefused | backend/app/services/email_policy_cache.py:52-112 | An email no policy admits any more is refused by fresh checks once the longest load and 30 seconds have passed |
| EmailPolicy.InvalidationMayBeOvertaken | backend/app/services/email_policy_cache.py:52-120 | At any earlier time it may still be allowed, even after an invalidation |
| Retention.SkipNewest | backend/app/services/execution_log.py:258-308 | The cutoff row found by ordering and offset: at most `n` rows are newer, more than `n` are not older, whatever the order of ties |
| Retention.LogTable.Cleanup | backend/app/services/execution_log.py:258-308 | Afterwards a row is there if and only if its tool had at most `n` rows at least as new; the result counts the rows removed |
| Retention.AtMostNPerTool | backend/app/services/execution_log.py:258-308 | Every tool keeps at most `n` logs |
| Retention.DeletedAreOlder | backend/app/services/execution_log.py:258-308 | A deleted log is strictly older than every surviving log of its tool |
| Retention.SmallToolsUntouched | backend/app/services/execution_log.py:258-308 | Tools with at most `n` logs keep all of them |
| Retention.ExactlyNUnlessTied | backend/app/services/execution_log.py:258-308 | Exactly `n` remain if and only if no tie of timestamps runs across the boundary |
| Retention.KeptIsLargest | backend/app/services/execution_log.py:258-308 | No more could be kept: any selection of at most `n` per tool that includes with a log all at least as new is part of what stays |
| Retention.CleanupIsIdempotent | backend/app/services/execution_log.py:258-308 | A second cleanup deletes nothing |
| SquidAcl.FileRoundTrip | sandbox/app/registry.py:118-139 | Writing clean entries and reading them back gives the same set, the empty one included; the proxy's helper sees exactly these lines |
| SquidAcl.ParseHostSplitsPort | sandbox/app/registry.py:76-89 | A numeric port is split off, and a host without colon is left alone |
| SquidAcl.ParseHostShortensIff | sandbox/app/registry.py:76-89 | An entry is shortened if and only if it ends in a colon and a number |
| SquidAcl.PrivateIff | sandbox/app/registry.py:92-115 | Approved are the entries of private addresses and of hosts that are no address and have a single label or end in a LAN label; never those of public addresses |
| SquidAcl.PortDoesNotMatter | sandbox/app/registry.py:92-115 | A port does not change whether a host is private |
| SquidAcl.FilterPrivateHosts | sandbox/app/registry.py:92-115 | The loop collects exactly the lower-cased private entries |
| SquidAcl.ToolRegistry.UpdateSquidApprovedHosts | sandbox/app/registry.py:260-275 | Afterwards the file lists exactly the private entries of the live servers |
| SquidAcl.ToolRegistry.RegisterServer | sandbox/app/registry.py:191-258 | Registering or re-registering replaces the server's entries and keeps file and registry in agreement |
| SquidAcl.ToolRegistry.UnregisterServer | sandbox/app/registry.py:300-307 | An unregistered server's entries leave the file unless another live server lists them |
| SquidAcl.ToolRegistry.EnsurePrivateHosts | sandbox/app/registry.py:142-171 | Merging through the file is exact set union: entries are only ever added until the next rebuild |
| SquidAcl.ReadBack | sandbox/app/registry.py:161-171 | Reading the file gives the set it was written from, in both readers |
| SquidAcl.ProxyAgreesWithRegistry | squid-proxy/check-approved-private.sh:23-62 | After a rebuild the proxy approves a destination if and only if some live server lists the host, or the host with that port |

## Left out

- HTTP routes, transports, SQL, JSON, cryptography and the shell and proxy processes themselves:
  a fetch, load or commit is a success or a failure given as a parameter.
- RedactionComplete: for several values with brackets the condition is sufficient only, because a later
  replacement may also destroy what an earlier one created; it is exact for one value and for values
  without brackets.
- `RateLimiter.reset`, statistics and the middleware that extracts the client address; `reset` forgets
  the history on purpose.
- A database session that commits and then fails while closing: the code would queue persisted entries
  again; `CommitBatch` takes a commit to be all there is.
- Listener notifications of the activity logger, `_sanitize_params_for_logging`, `_redact_args`, and
  cancellation of its tasks.
- RetryAsync: the function's result is an integer, which exceptions are retryable is part of the
  outcome, and cancellation of the call, which records nothing, is not modelled.
- `MCPSessionPool.call_tool` and `discover_tools`: the attempt loop around `GetOrCreate` and `Evict`
  repeats what is proved for the retry loop; health checks; closing the underlying connection.
- GetOrCreate: the hash in the pool key is taken as injective, and one clock reading stands for the
  several of one locked section.
- Email list elements that are not strings; case folding beyond ASCII letters; ports in other than ASCII
  digits.
- `ToolRegistry.clear_all`, tools and secrets of a server, failing file writes, and the order of lines.
  Entries are taken to be non-empty and free of whitespace; what counts as a private address is a
  parameter.
- SkipNewest: rows are a set with unique ids; deletion is one transaction per call.
- Rounding of floats, clocks that go back, and restarts of the process.
