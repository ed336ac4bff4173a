/** The worker's key lookup: `fetchAccessPublicKey` in worker/src/access-handler.ts, with its
    positive cache (5 minutes) and negative cache (60 seconds).

    The lookup suspends while it fetches, so requests interleave: `Begin` is what happens up to the
    fetch, `Finish` what happens when the response is there.  Times are milliseconds.
 */
module Jwks {
  import opened Common

  const CACHE_TTL: int := 300000
  const MISSING_TTL: int := 60000
  const PRUNE_SIZE: int := 100

  datatype Jwk = Jwk(kid: string, material: int)

  /** `keys` is `None` when the response had no such member; the code caches that too. */
  datatype Cache = Cache(keys: Option<seq<Jwk>>, cachedAt: int)

  /** A response: none at all, one without keys, or a key set. */
  datatype Response = Failed | NoKeys | Keys(keys: seq<Jwk>)

  datatype Answer = Key(jwk: Jwk) | Null | Throws | Fetching

  datatype State = State(cache: Option<Cache>, missing: map<string, int>)

  // ---------------------------------------------------------------------------------------
  // The two halves of a lookup
  // ---------------------------------------------------------------------------------------

  function Find(keys: seq<Jwk>, kid: string): Option<Jwk> {
    if keys == [] then None
    else if keys[0].kid == kid then Some(keys[0])
    else Find(keys[1..], kid)
  }

  /** A timestamp of zero is false in JavaScript. */
  predicate Blocked(missing: map<string, int>, kid: string, now: int) {
    kid in missing && missing[kid] != 0 && now - missing[kid] < MISSING_TTL
  }

  predicate Fresh(cache: Option<Cache>, now: int) {
    cache.Some? && now - cache.value.cachedAt < CACHE_TTL
  }

  function Unexpired(missing: map<string, int>, now: int): map<string, int> {
    map k | k in missing && now - missing[k] < MISSING_TTL :: missing[k]
  }

  /** Remember that `kid` is missing; `prune` tells whether a large table is pruned. */
  function Remember(missing: map<string, int>, kid: string, now: int, prune: bool): map<string, int> {
    var m := missing[kid := now];
    if prune && |m| > PRUNE_SIZE then Unexpired(m, now) else m
  }

  function Begin(s: State, kid: string, now: int, prune: bool): (State, Answer) {
    if Blocked(s.missing, kid, now) then (s, Null)
    else if !Fresh(s.cache, now) then (s, Fetching)
    else if s.cache.value.keys == None then (s, Throws)
    else
      match Find(s.cache.value.keys.value, kid)
      case Some(jwk) => (s, Key(jwk))
      case None => (s.(missing := Remember(s.missing, kid, now, prune)), Null)
  }

  /** `start` is the time the request began, which also stamps what it stores. */
  function Finish(s: State, kid: string, start: int, response: Response, prune: bool): (State, Answer) {
    match response
    case Failed => (s, Null)
    case NoKeys => (s.(cache := Some(Cache(None, start))), Null)
    case Keys(keys) =>
      var s' := s.(cache := Some(Cache(Some(keys), start)));
      match Find(keys, kid)
      case Some(jwk) => (s', Key(jwk))
      case None => (s'.(missing := Remember(s.missing, kid, start, prune)), Null)
  }

  class KeyCache {
    var jwksCache: Option<Cache>
    var missingKidCache: map<string, int>

    ghost function Value(): State
      reads this
    {
      State(jwksCache, missingKidCache)
    }

    constructor ()
      ensures Value() == State(None, map[])
    {
      jwksCache, missingKidCache := None, map[];
    }

    method BeginLookup(kid: string, now: int) returns (a: Answer)
      modifies this
      ensures (Value(), a) == Begin(old(Value()), kid, now, true)
    {
      if kid in missingKidCache {
        var missingAt := missingKidCache[kid];
        if missingAt != 0 && now - missingAt < MISSING_TTL {
          return Null;
        }
      }
      if jwksCache.Some? && now - jwksCache.value.cachedAt < CACHE_TTL {
        if jwksCache.value.keys == None {
          return Throws;
        }
        var jwk := Find(jwksCache.value.keys.value, kid);
        if jwk.Some? {
          return Key(jwk.value);
        }
        NoteMissing(kid, now);
        return Null;
      }
      return Fetching;
    }

    method FinishLookup(kid: string, start: int, response: Response) returns (a: Answer)
      modifies this
      ensures (Value(), a) == Finish(old(Value()), kid, start, response, true)
    {
      match response {
        case Failed => return Null;
        case NoKeys =>
          jwksCache := Some(Cache(None, start));
          return Null;
        case Keys(keys) =>
          jwksCache := Some(Cache(Some(keys), start));
          var jwk := Find(keys, kid);
          if jwk.None? {
            NoteMissing(kid, start);
            return Null;
          }
          return Key(jwk.value);
      }
    }

    method NoteMissing(kid: string, now: int)
      modifies this
      ensures missingKidCache == Remember(old(missingKidCache), kid, now, true)
      ensures jwksCache == old(jwksCache)
    {
      missingKidCache := missingKidCache[kid := now];
      if |missingKidCache| > PRUNE_SIZE {
        ghost var full := missingKidCache;
        var todo := missingKidCache.Keys;
        while todo != {}
          invariant todo <= missingKidCache.Keys <= full.Keys
          invariant jwksCache == old(jwksCache)
          invariant forall k :: k in missingKidCache ==> missingKidCache[k] == full[k]
          invariant forall k :: k in full && k !in todo ==>
                      (k in missingKidCache <==> now - full[k] < MISSING_TTL)
          decreases |todo|
        {
          var k :| k in todo;
          todo := todo - {k};
          if now - missingKidCache[k] >= MISSING_TTL {
            missingKidCache := missingKidCache - {k};
          }
        }
        assert missingKidCache == Unexpired(full, now);
      }
    }
  }

  // ---------------------------------------------------------------------------------------
  // Runs
  // ---------------------------------------------------------------------------------------

  /** `read` is when upstream produced the response that arrives at `at`. */
  datatype Event =
    | Lookup(kid: string, at: int)
    | Arrival(kid: string, start: int, response: Response, read: int, at: int)

  function Step(s: State, e: Event, prune: bool): (State, Answer) {
    match e
    case Lookup(kid, now) => Begin(s, kid, now, prune)
    case Arrival(kid, start, response, _, _) => Finish(s, kid, start, response, prune)
  }

  function Run(events: seq<Event>, prune: bool): State {
    if events == [] then State(None, map[])
    else Step(Run(events[..|events| - 1], prune), events[|events| - 1], prune).0
  }

  /** The answer to the last event. */
  function LastAnswer(events: seq<Event>, prune: bool): Answer
    requires events != []
  {
    Step(Run(events[..|events| - 1], prune), events[|events| - 1], prune).1
  }

  /** The key set upstream serves at each time. */
  type Upstream = int -> seq<Jwk>

  ghost predicate Honest(up: Upstream, e: Event) {
    e.Arrival? ==> e.start <= e.read <= e.at && (e.response.Keys? ==> e.response.keys == up(e.read))
  }

  /** The clock never goes back, and every key set that arrives was served by upstream between the
      start of its request and its arrival. */
  ghost predicate Legal(up: Upstream, events: seq<Event>) {
    && (forall i :: 0 <= i < |events| ==> Honest(up, events[i]))
    && (forall i, j :: 0 <= i < j < |events| ==> events[i].at <= events[j].at)
  }

  // ---------------------------------------------------------------------------------------
  // Key rotation
  // ---------------------------------------------------------------------------------------

  ghost predicate Serves(up: Upstream, kid: string, t: int) {
    exists jwk :: jwk in up(t) && jwk.kid == kid
  }

  lemma {:induction false} FindFinds(keys: seq<Jwk>, kid: string)
    ensures Find(keys, kid).Some? ==> Find(keys, kid).value in keys && Find(keys, kid).value.kid == kid
    ensures Find(keys, kid).None? ==> forall jwk :: jwk in keys ==> jwk.kid != kid
  {
    if keys != [] && keys[0].kid != kid {
      FindFinds(keys[1..], kid);
      assert keys == [keys[0]] + keys[1..];
    }
  }

  /** Once upstream serves `kid` from `since` on, what the caches can still hold against it. */
  ghost predicate Informed(s: State, kid: string, since: int) {
    && (kid in s.missing ==> s.missing[kid] < since + CACHE_TTL - 1)
    && (s.cache.Some? && s.cache.value.keys.Some? && s.cache.value.cachedAt >= since
        ==> Find(s.cache.value.keys.value, kid).Some?)
  }

  lemma RememberKeeps(missing: map<string, int>, kid: string, now: int, prune: bool, k: string)
    requires k in Remember(missing, kid, now, prune)
    ensures var v := Remember(missing, kid, now, prune)[k];
            if k == kid then v == now else k in missing && v == missing[k]
  {
  }

  lemma {:induction false} RunInformed(up: Upstream, events: seq<Event>, prune: bool, kid: string, since: int)
    requires Legal(up, events) && forall t :: t >= since ==> Serves(up, kid, t)
    ensures Informed(Run(events, prune), kid, since)
    decreases |events|
  {
    if events != [] {
      var before, e := events[..|events| - 1], events[|events| - 1];
      RunInformed(up, before, prune, kid, since);
      StepInformed(up, Run(before, prune), e, prune, kid, since);
    }
  }

  lemma StepInformed(up: Upstream, s: State, e: Event, prune: bool, kid: string, since: int)
    requires Honest(up, e) && Informed(s, kid, since) && forall t :: t >= since ==> Serves(up, kid, t)
    ensures Informed(Step(s, e, prune).0, kid, since)
  {
    var s' := Step(s, e, prune).0;
    if e.Arrival? && e.response.Keys? {
      FindFinds(e.response.keys, kid);
      FindFinds(e.response.keys, e.kid);
      assert e.read >= since ==> Serves(up, kid, e.read);
    }
    if kid in s'.missing && s'.missing != s.missing {
      RememberKeeps(s.missing, e.kid, if e.Lookup? then e.at else e.start, prune, kid);
    }
  }

  /** What the latest response that did not fail left in the cache. */
  function LastStored(events: seq<Event>): Option<Cache> {
    if events == [] then None
    else
      match events[|events| - 1]
      case Arrival(_, start, NoKeys, _, _) => Some(Cache(None, start))
      case Arrival(_, start, Keys(keys), _, _) => Some(Cache(Some(keys), start))
      case _ => LastStored(events[..|events| - 1])
  }

  lemma {:induction false} CacheIsLastStored(events: seq<Event>, prune: bool)
    ensures Run(events, prune).cache == LastStored(events)
    decreases |events|
  {
    if events != [] {
      CacheIsLastStored(events[..|events| - 1], prune);
    }
  }

  lemma {:induction false} CacheCameFromArrival(events: seq<Event>, prune: bool)
    ensures var s := Run(events, prune);
            s.cache.Some? ==>
              exists i :: 0 <= i < |events| && events[i].Arrival? && events[i].start == s.cache.value.cachedAt
                && (s.cache.value.keys == None ==> events[i].response.NoKeys?)
                && (s.cache.value.keys.Some? ==>
                      events[i].response == Keys(s.cache.value.keys.value))
    decreases |events|
  {
    if events != [] {
      var n := |events| - 1;
      var s := Run(events, prune);
      CacheCameFromArrival(events[..n], prune);
      if s.cache == Run(events[..n], prune).cache && s.cache.Some? {
        var i :| 0 <= i < n && events[..n][i].Arrival? && events[..n][i].start == s.cache.value.cachedAt
                 && (s.cache.value.keys == None ==> events[..n][i].response.NoKeys?)
                 && (s.cache.value.keys.Some? ==> events[..n][i].response == Keys(s.cache.value.keys.value));
        assert events[i] == events[..n][i];
      } else if s.cache.Some? {
        assert events[n].Arrival? && events[n].start == s.cache.value.cachedAt;
      }
    }
  }

  /** A lookup throws if and only if the kid is not negatively cached and the latest response that did
      not fail had no `keys` and was requested less than five minutes ago. */
  lemma ThrowsIffKeyless(events: seq<Event>, kid: string, now: int)
    ensures Begin(Run(events, true), kid, now, true).1 == Throws <==>
              && !Blocked(Run(events, true).missing, kid, now)
              && Fresh(LastStored(events), now) && LastStored(events).value.keys == None
  {
    CacheIsLastStored(events, true);
  }

  /** It does happen: after one such response every lookup of every kid throws for five minutes, and
      fetches again from then on. */
  lemma KeylessResponseThrows(up: Upstream, fetched: string, start: int, kid: string, now: int)
    ensures var events := [Arrival(fetched, start, NoKeys, start, start)];
            && Legal(up, events)
            && Begin(Run(events, true), kid, now, true).1 == if now < start + 300000 then Throws else Fetching
  {
    var events := [Arrival(fetched, start, NoKeys, start, start)];
    assert events[..0] == [];
    ThrowsIffKeyless(events, kid, now);
  }

  /** If upstream serves a key from time `since` on, then a lookup six minutes later (less two
      milliseconds) is never refused, whatever was cached before and however lookups interleave: it
      goes to fetch unless a response is less than five minutes old, and then it finds the key unless
      that response had no `keys`. */
  lemma RotationBound(up: Upstream, events: seq<Event>, kid: string, since: int, now: int)
    requires Legal(up, events) && forall t :: t >= since ==> Serves(up, kid, t)
    requires now >= since + 359998
    ensures var stored, answer := LastStored(events), Begin(Run(events, true), kid, now, true).1;
            if !Fresh(stored, now) then answer == Fetching
            else if stored.value.keys == None then answer == Throws
            else answer.Key? && answer.jwk.kid == kid && answer.jwk in stored.value.keys.value
  {
    var s := Run(events, true);
    RunInformed(up, events, true, kid, since);
    CacheIsLastStored(events, true);
    if Fresh(s.cache, now) && s.cache.value.keys.Some? {
      FindFinds(s.cache.value.keys.value, kid);
    }
  }

  /** A fetch that begins once upstream serves the key finds it. */
  lemma FetchFinds(up: Upstream, s: State, kid: string, start: int, response: Response, read: int, at: int)
    requires Honest(up, Arrival(kid, start, response, read, at)) && response.Keys?
    requires Serves(up, kid, read)
    ensures var a := Finish(s, kid, start, response, true).1;
            a.Key? && a.jwk.kid == kid && a.jwk in up(read)
  {
    FindFinds(response.keys, kid);
  }

  /** The bound is exact to the millisecond: one millisecond earlier the key may still be refused. */
  lemma RotationBoundIsTight(up: Upstream, kid: string, other: string, since: int) returns (events: seq<Event>)
    requires since > 0 && kid != other
    requires forall t :: up(t) == if t >= since then [Jwk(kid, 0)] else []
    ensures Legal(up, events) && (forall t :: t >= since ==> Serves(up, kid, t))
    ensures Begin(Run(events, true), kid, since + 359997, true).1 == Null
  {
    var fetch := Arrival(other, since - 1, Keys([]), since - 1, since - 1);
    var look := Lookup(kid, since + CACHE_TTL - 2);
    var first := [fetch];
    events := first + [look];
    assert first[..0] == [] && events[..1] == first;
    assert Run(first, true) == State(Some(Cache(Some([]), since - 1)), map[other := since - 1]);
    assert Run(events, true).missing[kid] == since + CACHE_TTL - 2;
    forall t | t >= since ensures Serves(up, kid, t) {
      assert Jwk(kid, 0) in up(t);
    }
  }

  // ---------------------------------------------------------------------------------------
  // Age of the answers
  // ---------------------------------------------------------------------------------------

  /** A key handed out was served by upstream less than five minutes before, and not later than
      now; so a key withdrawn upstream is refused after five minutes at the latest. */
  lemma AnswersAreRecent(up: Upstream, events: seq<Event>, kid: string, now: int) returns (read: int)
    requires Legal(up, events) && (events != [] ==> events[|events| - 1].at <= now)
    requires Begin(Run(events, true), kid, now, true).1.Key?
    ensures now - CACHE_TTL < read <= now
    ensures var jwk := Begin(Run(events, true), kid, now, true).1.jwk;
            jwk.kid == kid && jwk in up(read)
  {
    var s := Run(events, true);
    CacheCameFromArrival(events, true);
    var i :| 0 <= i < |events| && events[i].Arrival? && events[i].start == s.cache.value.cachedAt
             && events[i].response == Keys(s.cache.value.keys.value);
    read := events[i].read;
    assert Honest(up, events[i]);
    FindFinds(s.cache.value.keys.value, kid);
    assert events[i].at <= events[|events| - 1].at;
  }

  lemma WithdrawnKeyIsRefused(up: Upstream, events: seq<Event>, jwk: Jwk, gone: int, now: int)
    requires Legal(up, events) && (events != [] ==> events[|events| - 1].at <= now)
    requires (forall t :: t >= gone ==> jwk !in up(t)) && now >= gone + CACHE_TTL - 1
    ensures Begin(Run(events, true), jwk.kid, now, true).1 != Key(jwk)
  {
    if Begin(Run(events, true), jwk.kid, now, true).1 == Key(jwk) {
      var read := AnswersAreRecent(up, events, jwk.kid, now);
    }
  }

  // ---------------------------------------------------------------------------------------
  // Every answer
  // ---------------------------------------------------------------------------------------

  ghost predicate Has(keys: seq<Jwk>, kid: string) {
    exists i :: 0 <= i < |keys| && keys[i].kid == kid
  }

  /** `jwk` is the first key of `keys` with this kid. */
  ghost predicate IsFirst(keys: seq<Jwk>, kid: string, jwk: Jwk) {
    exists i :: 0 <= i < |keys| && keys[i] == jwk && jwk.kid == kid && forall j :: 0 <= j < i ==> keys[j].kid != kid
  }

  lemma {:induction false} FindIsFirst(keys: seq<Jwk>, kid: string)
    ensures Find(keys, kid).Some? <==> Has(keys, kid)
    ensures Find(keys, kid).Some? ==> IsFirst(keys, kid, Find(keys, kid).value)
  {
    if keys != [] {
      var rest := keys[1..];
      if keys[0].kid == kid {
        assert IsFirst(keys, kid, keys[0]);
      } else {
        FindIsFirst(rest, kid);
        if Has(rest, kid) {
          var i :| 0 <= i < |rest| && rest[i] == Find(rest, kid).value && forall j :: 0 <= j < i ==> rest[j].kid != kid;
          assert keys[i + 1].kid == kid;
        } else {
          forall i | 0 <= i < |keys| ensures keys[i].kid != kid {
            assert i > 0 ==> keys[i] == rest[i - 1];
          }
        }
      }
    }
  }

  /** `a` is the answer found in a key set: its first key with the kid, or nothing. */
  ghost predicate FoundIn(keys: seq<Jwk>, kid: string, a: Answer) {
    if Has(keys, kid) then a.Key? && IsFirst(keys, kid, a.jwk) else a == Null
  }

  /** What every lookup of every run answers, by what the latest response that did not fail left. */
  lemma LookupAnswers(events: seq<Event>, kid: string, now: int)
    ensures var stored, a := LastStored(events), LastAnswer(events + [Lookup(kid, now)], true);
            if Blocked(Run(events, true).missing, kid, now) then a == Null
            else if !Fresh(stored, now) then a == Fetching
            else if stored.value.keys == None then a == Throws
            else FoundIn(stored.value.keys.value, kid, a)
  {
    assert (events + [Lookup(kid, now)])[..|events|] == events;
    CacheIsLastStored(events, true);
    var stored := LastStored(events);
    if stored.Some? && stored.value.keys.Some? {
      FindIsFirst(stored.value.keys.value, kid);
    }
  }

  /** What every fetch of every run answers: what its own response holds.  A fetch that fails, brings no
      `keys` or lacks the kid answers nothing, whatever was cached. */
  lemma FetchAnswers(events: seq<Event>, kid: string, start: int, response: Response, read: int, at: int)
    ensures var a := LastAnswer(events + [Arrival(kid, start, response, read, at)], true);
            if response.Keys? then FoundIn(response.keys, kid, a) else a == Null
  {
    assert (events + [Arrival(kid, start, response, read, at)])[..|events|] == events;
    if response.Keys? {
      FindIsFirst(response.keys, kid);
    }
  }

  /** Whatever event handed out a key, upstream served it under that kid: for a fetch, between the start of
      its own request and its arrival; for a lookup, less than five minutes before. */
  lemma EveryKeyWasServed(up: Upstream, events: seq<Event>) returns (read: int)
    requires Legal(up, events) && events != [] && LastAnswer(events, true).Key?
    ensures var e, jwk := events[|events| - 1], LastAnswer(events, true).jwk;
            && jwk.kid == e.kid && jwk in up(read) && read <= e.at
            && read > (if e.Lookup? then e.at - 300000 else e.start - 1)
  {
    var before, e := events[..|events| - 1], events[|events| - 1];
    match e {
      case Lookup(kid, now) => read := AnswersAreRecent(up, before, kid, now);
      case Arrival(kid, start, response, r, at) =>
        assert Honest(up, e);
        FindFinds(response.keys, kid);
        read := r;
    }
  }

  /** So a withdrawn key is the answer neither to a fetch that began after its withdrawal nor to a lookup
      five minutes later. */
  lemma WithdrawnKeyIsNeverAnswered(up: Upstream, events: seq<Event>, jwk: Jwk, gone: int)
    requires Legal(up, events) && events != [] && forall t :: t >= gone ==> jwk !in up(t)
    requires var e := events[|events| - 1];
             if e.Lookup? then e.at >= gone + 299999 else e.start >= gone
    ensures LastAnswer(events, true) != Key(jwk)
  {
    if LastAnswer(events, true) == Key(jwk) {
      var read := EveryKeyWasServed(up, events);
    }
  }

  // ---------------------------------------------------------------------------------------
  // Pruning
  // ---------------------------------------------------------------------------------------

  /** `s` is `r` without some negative entries that have expired by `now`. */
  ghost predicate Pruned(s: State, r: State, now: int) {
    && s.cache == r.cache
    && (forall k :: k in s.missing ==> k in r.missing && s.missing[k] == r.missing[k])
    && (forall k :: k in r.missing && k !in s.missing ==> now - r.missing[k] >= MISSING_TTL)
  }

  lemma RememberPruned(s: State, r: State, kid: string, stamp: int, now: int)
    requires Pruned(s, r, now) && stamp <= now
    ensures Pruned(s.(missing := Remember(s.missing, kid, stamp, true)),
                   r.(missing := Remember(r.missing, kid, stamp, false)), now)
  {
  }

  lemma StepPruned(s: State, r: State, e: Event, up: Upstream)
    requires Honest(up, e) && Pruned(s, r, e.at)
    ensures Step(s, e, true).1 == Step(r, e, false).1
    ensures Pruned(Step(s, e, true).0, Step(r, e, false).0, e.at)
  {
    match e {
      case Lookup(kid, now) =>
        assert Blocked(s.missing, kid, now) == Blocked(r.missing, kid, now);
        RememberPruned(s, r, kid, now, now);
      case Arrival(kid, start, response, _, at) => FinishPruned(s, r, kid, start, response, at);
    }
  }

  lemma FinishPruned(s: State, r: State, kid: string, start: int, response: Response, at: int)
    requires Pruned(s, r, at) && start <= at
    ensures Finish(s, kid, start, response, true).1 == Finish(r, kid, start, response, false).1
    ensures Pruned(Finish(s, kid, start, response, true).0, Finish(r, kid, start, response, false).0, at)
  {
    var cache := Finish(s, kid, start, response, true).0.cache;
    RememberPruned(s.(cache := cache), r.(cache := cache), kid, start, at);
  }

  /** Pruning the negative cache never changes an answer: any run answers as it would without. */
  lemma {:induction false} PruningIsInvisible(up: Upstream, events: seq<Event>)
    requires Legal(up, events) && events != []
    ensures LastAnswer(events, true) == LastAnswer(events, false)
    ensures Pruned(Run(events, true), Run(events, false), events[|events| - 1].at)
    decreases |events|
  {
    var before, e := events[..|events| - 1], events[|events| - 1];
    if before != [] {
      PruningIsInvisible(up, before);
      assert before[|before| - 1].at <= e.at;
    }
    StepPruned(Run(before, true), Run(before, false), e, up);
  }

  // ---------------------------------------------------------------------------------------
  // How often keys are fetched
  // ---------------------------------------------------------------------------------------

  /** A lookup goes to fetch if and only if the kid is not negatively cached and no response is less than
      five minutes old. */
  lemma FetchesIffStale(events: seq<Event>, kid: string, now: int)
    ensures Begin(Run(events, true), kid, now, true).1 == Fetching <==>
              !Blocked(Run(events, true).missing, kid, now) && !Fresh(LastStored(events), now)
  {
    CacheIsLastStored(events, true);
  }

  /** Requests come one after the other: every response that arrives was asked for by the lookup just
      before it. */
  ghost predicate Sequential(events: seq<Event>) {
    forall i :: 0 <= i < |events| && events[i].Arrival? ==>
      && 0 < i && events[i - 1] == Lookup(events[i].kid, events[i].start)
      && Begin(Run(events[..i - 1], true), events[i].kid, events[i].start, true).1 == Fetching
  }

  predicate Stores(e: Event) {
    e.Arrival? && !e.response.Failed?
  }

  /** What the cache holds stays until the next response that did not fail. */
  lemma {:induction false} StoredSince(events: seq<Event>, i: nat)
    requires i < |events| && Stores(events[i])
    requires forall k :: i < k < |events| ==> !Stores(events[k])
    ensures LastStored(events).Some? && LastStored(events).value.cachedAt == events[i].start
    decreases |events|
  {
    var n := |events| - 1;
    if i < n {
      assert forall k :: i < k < n ==> events[..n][k] == events[k];
      StoredSince(events[..n], i);
    }
  }

  lemma {:induction false} LatestStored(events: seq<Event>, i: nat) returns (k: nat)
    requires i < |events| && Stores(events[i])
    ensures i <= k < |events| && Stores(events[k]) && forall m :: k < m < |events| ==> !Stores(events[m])
    decreases |events|
  {
    var n := |events| - 1;
    if Stores(events[n]) {
      k := n;
    } else {
      k := LatestStored(events[..n], i);
      assert events[..n][k] == events[k];
    }
  }

  /** However many kids are asked for, sequential requests fetch successfully at most once in five
      minutes. */
  lemma {:induction false} FetchesAreSpaced(events: seq<Event>, i: nat, j: nat)
    requires Sequential(events) && i < j < |events| && Stores(events[i]) && Stores(events[j])
    ensures events[j].start - events[i].start >= 300000
    decreases j
  {
    var before := events[..j - 1];
    assert events[j - 1].Lookup? && i < j - 1;
    var k := LatestStored(before, i);
    assert before[k] == events[k];
    StoredSince(before, k);
    FetchesIffStale(before, events[j].kid, events[j].start);
    if i < k {
      FetchesAreSpaced(events, i, k);
    }
  }

  /** Failed fetches do not count, nor do those still in flight: until a first response is stored, every
      lookup of every kid fetches. */
  lemma {:induction false} FailuresRepeat(events: seq<Event>, kid: string, now: int)
    requires forall i :: 0 <= i < |events| ==> !Stores(events[i])
    ensures Run(events, true) == State(None, map[]) && Begin(Run(events, true), kid, now, true).1 == Fetching
    decreases |events|
  {
    if events != [] {
      var n := |events| - 1;
      assert forall i :: 0 <= i < n ==> events[..n][i] == events[i];
      FailuresRepeat(events[..n], events[n].kid, events[n].at);
    }
  }

  // ---------------------------------------------------------------------------------------
  // Size of the negative cache
  // ---------------------------------------------------------------------------------------

  /** The kid an event notes as missing, and the time it stamps it with. */
  function Noted(s: State, e: Event): Option<(string, int)> {
    match e
    case Lookup(kid, now) =>
      if !Blocked(s.missing, kid, now) && Fresh(s.cache, now) && s.cache.value.keys.Some?
         && Find(s.cache.value.keys.value, kid) == None
      then Some((kid, now)) else None
    case Arrival(kid, start, response, _, _) =>
      if response.Keys? && Find(response.keys, kid) == None then Some((kid, start)) else None
  }

  /** Every kid noted so far, with its latest stamp. */
  function Notes(events: seq<Event>): map<string, int> {
    if events == [] then map[]
    else
      var before, e := events[..|events| - 1], events[|events| - 1];
      match Noted(Run(before, true), e)
      case None => Notes(before)
      case Some((kid, stamp)) => Notes(before)[kid := stamp]
  }

  /** The stamp of the latest note. */
  function LastStamp(events: seq<Event>): int {
    if events == [] then 0
    else
      var before, e := events[..|events| - 1], events[|events| - 1];
      match Noted(Run(before, true), e)
      case None => LastStamp(before)
      case Some((_, stamp)) => stamp
  }

  /** The kids noted in the minute before the latest note. */
  function RecentlyNoted(events: seq<Event>): set<string> {
    set k | k in Notes(events) && LastStamp(events) - Notes(events)[k] < MISSING_TTL
  }

  ghost predicate Contained(missing: map<string, int>, notes: map<string, int>, last: int) {
    && (forall k :: k in missing ==> k in notes && missing[k] == notes[k])
    && (|missing| <= PRUNE_SIZE || forall k :: k in missing ==> last - missing[k] < MISSING_TTL)
  }

  lemma RememberContained(missing: map<string, int>, notes: map<string, int>, last: int, kid: string, stamp: int)
    requires Contained(missing, notes, last)
    ensures Contained(Remember(missing, kid, stamp, true), notes[kid := stamp], stamp)
  {
  }

  lemma StepNotes(s: State, e: Event)
    ensures Step(s, e, true).0.missing == match Noted(s, e)
                                          case None => s.missing
                                          case Some((kid, stamp)) => Remember(s.missing, kid, stamp, true)
  {
  }

  lemma {:induction false} RunContained(events: seq<Event>)
    ensures Contained(Run(events, true).missing, Notes(events), LastStamp(events))
    decreases |events|
  {
    if events != [] {
      var before, e := events[..|events| - 1], events[|events| - 1];
      RunContained(before);
      StepNotes(Run(before, true), e);
      var noted := Noted(Run(before, true), e);
      if noted.Some? {
        RememberContained(Run(before, true).missing, Notes(before), LastStamp(before), noted.value.0, noted.value.1);
      }
    }
  }

  /** The negative cache never holds more than a hundred kids or, if more, than were noted within one
      minute: it does not grow without bound. */
  lemma NegativeCacheIsBounded(events: seq<Event>)
    ensures var n := |RecentlyNoted(events)|;
            |Run(events, true).missing| <= Max(100, n)
  {
    RunContained(events);
    var missing := Run(events, true).missing;
    if |missing| > PRUNE_SIZE {
      SubsetSize(missing.Keys, RecentlyNoted(events));
    }
  }

  // ---------------------------------------------------------------------------------------
  // What the negative cache remembers
  // ---------------------------------------------------------------------------------------

  /** Only expired notes have been forgotten. */
  ghost predicate ForgotExpired(missing: map<string, int>, notes: map<string, int>, t: int) {
    forall k :: k in notes && k !in missing ==> t - notes[k] >= MISSING_TTL
  }

  lemma RememberForgets(missing: map<string, int>, notes: map<string, int>, kid: string, stamp: int, t: int)
    requires ForgotExpired(missing, notes, t) && stamp <= t
    requires forall k :: k in missing ==> k in notes && missing[k] == notes[k]
    ensures ForgotExpired(Remember(missing, kid, stamp, true), notes[kid := stamp], t)
  {
  }

  lemma {:induction false} RunForgets(up: Upstream, events: seq<Event>, t: int)
    requires Legal(up, events) && forall i :: 0 <= i < |events| ==> events[i].at <= t
    ensures ForgotExpired(Run(events, true).missing, Notes(events), t)
    decreases |events|
  {
    if events != [] {
      var before, e := events[..|events| - 1], events[|events| - 1];
      RunForgets(up, before, t);
      RunContained(before);
      StepNotes(Run(before, true), e);
      assert Honest(up, e);
      var noted := Noted(Run(before, true), e);
      if noted.Some? {
        RememberForgets(Run(before, true).missing, Notes(before), noted.value.0, noted.value.1, t);
      }
    }
  }

  /** A lookup is refused by the negative cache if and only if its kid was last found missing less than a
      minute ago, in a fresh key set or by a fetch, however the table was pruned; a time of zero does not
      count. */
  lemma BlockedIffNoted(up: Upstream, events: seq<Event>, kid: string, now: int)
    requires Legal(up, events) && forall i :: 0 <= i < |events| ==> events[i].at <= now
    ensures var notes := Notes(events);
            Blocked(Run(events, true).missing, kid, now)
            <==> kid in notes && notes[kid] != 0 && now - notes[kid] < 60000
  {
    RunForgets(up, events, now);
    RunContained(events);
  }
}
