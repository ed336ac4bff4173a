/** The MCP session pool of sandbox/app/mcp_session_pool.py.

    Pool operations hold the pool's lock, so callers interleave between them; the entries they
    were handed are shared objects that others use at the same time.
 */
module SessionPool {
  import opened Common

  type Headers = map<string, string>

  /** The pool key; the hash over url and sorted headers is taken as injective. */
  datatype PoolKey = PoolKey(url: string, headers: Headers)

  // ---------------------------------------------------------------------------------------
  // The life of one entry
  // ---------------------------------------------------------------------------------------

  /** `waiting` callers were handed the entry and have not begun with it; at most one, who holds the
      entry's own lock, is `connecting` it. */
  datatype Life = Life(pooled: bool, initialized: bool, waiting: nat, connecting: bool)

  /** A new entry is handed to the caller it was made for. */
  const NEW := Life(true, false, 1, false)

  /** `check` marks a health check, which connects an initialized entry as well. */
  datatype Use =
    | Handed
    | Begun(check: bool)
    | Connected(ok: bool)
    | GivenUp

  predicate Enabled(l: Life, u: Use) {
    match u
    case Handed => l.pooled
    case Begun(_) => l.waiting > 0 && !l.connecting
    case Connected(_) => l.connecting
    case GivenUp => l.pooled
  }

  /** The pool hands out and gives up only entries it holds; it does not take the entry's lock. */
  function Step(l: Life, u: Use): Life
    requires Enabled(l, u)
  {
    match u
    case Handed => l.(waiting := l.waiting + 1)
    case Begun(check) => l.(waiting := l.waiting - 1, connecting := check || !l.initialized)
    case Connected(ok) => l.(connecting := false, initialized := l.initialized || ok)
    case GivenUp => l.(pooled := false, initialized := false)
  }

  ghost predicate Possible(l: Life, uses: seq<Use>)
    decreases |uses|
  {
    uses == [] || (Enabled(l, uses[0]) && Possible(Step(l, uses[0]), uses[1..]))
  }

  function After(l: Life, uses: seq<Use>): Life
    requires Possible(l, uses)
    decreases |uses|
  {
    if uses == [] then l else After(Step(l, uses[0]), uses[1..])
  }

  class PoolEntry {
    const key: PoolKey
    const createdAt: real
    var initialized: bool
    var lastUsedAt: real

    constructor (url: string, headers: Headers, now: real)
      ensures key == PoolKey(url, headers) && createdAt == now
      ensures !initialized && lastUsedAt == now
    {
      key, createdAt := PoolKey(url, headers), now;
      initialized, lastUsedAt := false, now;
    }

    /** `ensure_initialized` up to its first suspension: an initialized session is in use at once, any
        other one is opened and initialized first.  `life` is the life of this entry so far. */
    method BeginUse(now: real, ghost life: Life) returns (ready: bool, ghost life': Life)
      requires life.initialized == initialized && Enabled(life, Begun(false))
      modifies this`lastUsedAt
      ensures ready == initialized && lastUsedAt == if ready then now else old(lastUsedAt)
      ensures life' == Step(life, Begun(false)) && life'.initialized == initialized && life'.connecting == !ready
    {
      life' := Step(life, Begun(false));
      if initialized {
        lastUsedAt := now;
      }
      return initialized, life';
    }

    /** The rest, once the client is initialized or opening it has failed. */
    method FinishConnecting(connected: bool, now: real, ghost life: Life) returns (ghost life': Life)
      requires life.initialized == initialized && Enabled(life, Connected(connected))
      modifies this
      ensures life' == Step(life, Connected(connected)) && life'.initialized == initialized
      ensures lastUsedAt == if connected then now else old(lastUsedAt)
    {
      life' := Step(life, Connected(connected));
      if connected {
        initialized := true;
        lastUsedAt := now;
      }
    }

    method Close()
      modifies this`initialized
      ensures !initialized
    {
      initialized := false;
    }
  }

  type Entries = map<PoolKey, PoolEntry>

  /** `k` is a least recently used entry of `m`. */
  ghost predicate LeastRecentlyUsed(m: Entries, k: PoolKey)
    reads m.Values
  {
    k in m && forall j :: j in m ==> m[k].lastUsedAt <= m[j].lastUsedAt
  }

  /** Whether `m` holds this very entry, under its own key. */
  ghost predicate Holds(m: Entries, e: PoolEntry)
  {
    e.key in m && m[e.key] == e
  }

  /** Which of some entries are initialized. */
  ghost function Live(all: set<PoolEntry>): set<PoolEntry>
    reads all
  {
    set e | e in all && e.initialized
  }

  /** A pool that went from `before` to `after` closed the entries it gave up and touched none of
      the others, be they still pooled or given up earlier. */
  ghost predicate OnlyClosed(live: set<PoolEntry>, before: Entries, stillLive: set<PoolEntry>, after: Entries) {
    stillLive == set e | e in live && (Holds(before, e) ==> Holds(after, e))
  }

  ghost predicate Within(m: Entries, n: Entries) {
    forall k :: k in m ==> k in n && m[k] == n[k]
  }

  lemma OnlyClosedTwice(
      l0: set<PoolEntry>, m0: Entries, l1: set<PoolEntry>, m1: Entries, l2: set<PoolEntry>, m2: Entries)
    requires OnlyClosed(l0, m0, l1, m1) && OnlyClosed(l1, m1, l2, m2)
    requires Within(m1, m0) && Within(m2, m1)
    ensures OnlyClosed(l0, m0, l2, m2)
  {
  }

  lemma AddingClosesNone(
      l0: set<PoolEntry>, m0: Entries, l: set<PoolEntry>, m: Entries, entry: PoolEntry)
    requires OnlyClosed(l0, m0, l, m) && entry !in l0 && entry.key !in m
    ensures OnlyClosed(l0, m0, l, m[entry.key := entry])
  {
    forall e | e in l0 ensures Holds(m, e) <==> Holds(m[entry.key := entry], e) {
    }
  }

  /** What is left of `m` for a request of `key`, whose entry may be too old. */
  function Unexpired(m: Entries, key: PoolKey, now: real, maxAge: real): Entries {
    if key in m && now - m[key].createdAt > maxAge then m - {key} else m
  }

  /** The entry of the request stays if and only if it is at most `maxAge` old; the others all stay. */
  lemma UnexpiredMeans(m: Entries, key: PoolKey, now: real, maxAge: real)
    ensures var left := Unexpired(m, key, now, maxAge);
            && (key in left <==> key in m && now - m[key].createdAt <= maxAge)
            && (key in left || key !in m ==> left == m)
            && left - {key} == m - {key} && Within(left, m)
  {
  }

  /** What is left of `m` when there has to be room for one more. */
  function WithRoom(m: Entries, victim: PoolKey, maxSize: int): Entries {
    if |m| < maxSize || m == map[] then m else m - {victim}
  }

  /** The entries of `m` that belong to other sources. */
  function NotFrom(m: Entries, url: string): Entries {
    map k | k in m && k.url != url :: m[k]
  }

  lemma LoseOne(m: Entries, k: PoolKey)
    ensures NotFrom(m - {k}, k.url) == NotFrom(m, k.url) && Within(m - {k}, m)
  {
  }

  lemma OneFewer(m: Entries, k: PoolKey)
    ensures |m - {k}| == if k in m then |m| - 1 else |m|
  {
    assert (m - {k}).Keys == m.Keys - {k};
  }

  /** If fewer sessions than the pool holds were used at or after `t`, the one given up was not. */
  lemma VictimIsIdle(m: Entries, victim: PoolKey, t: real, recent: set<PoolKey>)
    requires LeastRecentlyUsed(m, victim)
    requires forall k :: k in m && m[k].lastUsedAt >= t ==> k in recent
    requires |recent| < |m|
    ensures m[victim].lastUsedAt < t
  {
    if m[victim].lastUsedAt >= t {
      assert m.Keys <= recent;
      SubsetSize(m.Keys, recent);
      assert false;
    }
  }

  class MCPSessionPool {
    const maxAge: real
    const maxSize: int
    var entries: Entries
    /** Every entry the pool ever made; callers may still use the ones it gave up. */
    ghost var made: set<PoolEntry>

    /** Every entry sits under the key of its own url and headers, and the pool keeps its bound;
        with a non-positive bound it still holds one entry. */
    ghost predicate Valid()
      reads this
    {
      Keyed() && |entries| <= Max(1, maxSize)
    }

    ghost predicate Keyed()
      reads this
    {
      forall k :: k in entries ==> entries[k] in made && entries[k].key == k
    }

    constructor (maxAge: real, maxSize: int)
      ensures Valid() && this.maxAge == maxAge && this.maxSize == maxSize
      ensures entries == map[] && made == {}
    {
      this.maxAge, this.maxSize, entries, made := maxAge, maxSize, map[], {};
    }

    /** Removes one entry, chosen by time of last use; nothing to do if there is none. */
    method EvictLru() returns (ghost victim: PoolKey)
      requires Keyed()
      modifies this`entries, made`initialized
      ensures Keyed() && OnlyClosed(old(Live(made)), old(entries), Live(made), entries)
      ensures if old(entries) == map[] then entries == map[] else
                old(LeastRecentlyUsed(entries, victim)) && entries == old(entries) - {victim}
    {
      if entries == map[] {
        return PoolKey("", map[]);
      }
      var keys := entries.Keys;
      var lru :| lru in keys;
      var todo := keys;
      while todo != {}
        invariant todo <= keys && lru in keys
        invariant forall j :: j in keys - todo ==> entries[lru].lastUsedAt <= entries[j].lastUsedAt
        decreases |todo|
      {
        var k :| k in todo;
        todo := todo - {k};
        if entries[k].lastUsedAt < entries[lru].lastUsedAt {
          lru := k;
        }
      }
      assert LeastRecentlyUsed(entries, lru);
      Pop(lru);
      return lru;
    }

    /** Takes one entry out of the pool and closes it. */
    method Pop(key: PoolKey)
      requires Keyed() && key in entries
      modifies this`entries, made`initialized
      ensures Keyed() && OnlyClosed(old(Live(made)), old(entries), Live(made), entries)
      ensures entries == old(entries) - {key} && |entries| == |old(entries)| - 1
    {
      var entry := entries[key];
      OneFewer(entries, key);
      entries := entries - {key};
      entry.Close();
    }

    /** Drops the entry under `key` if it is too old to hand out. */
    method PopExpired(key: PoolKey, now: real)
      requires Valid()
      modifies this`entries, made`initialized
      ensures Valid() && OnlyClosed(old(Live(made)), old(entries), Live(made), entries)
      ensures entries == Unexpired(old(entries), key, now, maxAge) && Within(entries, old(entries))
    {
      if key in entries && now - entries[key].createdAt > maxAge {
        Pop(key);
      }
    }

    /** Makes room for one more entry. */
    method MakeRoom() returns (ghost victim: PoolKey)
      requires Valid()
      modifies this`entries, made`initialized
      ensures Valid() && OnlyClosed(old(Live(made)), old(entries), Live(made), entries)
      ensures |entries| < Max(1, maxSize)
      ensures entries == WithRoom(old(entries), victim, maxSize) && Within(entries, old(entries))
      ensures entries != old(entries) ==> old(LeastRecentlyUsed(entries, victim))
    {
      victim := PoolKey("", map[]);
      if |entries| >= maxSize {
        OneFewer(entries, victim);
        victim := EvictLru();
        OneFewer(old(entries), victim);
      }
    }

    /** A pooled session for the url and headers that is not too old: the one already there, or a
        new one, which may cost the least recently used of the others its place. */
    method GetOrCreate(url: string, headers: Headers, now: real)
      returns (entry: PoolEntry, ghost victim: PoolKey)
      requires Valid()
      modifies this`entries, this`made, made`initialized
      ensures Valid() && Holds(entries, entry) && entry.key == PoolKey(url, headers)
      ensures fresh(entry) || now - entry.createdAt <= maxAge
      ensures OnlyClosed(old(Live(made)), old(entries), Live(made), entries)
      ensures var unexpired := Unexpired(old(entries), entry.key, now, maxAge);
              if entry.key in unexpired then
                entry == unexpired[entry.key] && entries == unexpired && made == old(made)
              else
                && fresh(entry) && entry.createdAt == now && !entry.initialized
                && entries == WithRoom(unexpired, victim, maxSize)[entry.key := entry]
                && made == old(made) + {entry}
                && (WithRoom(unexpired, victim, maxSize) != unexpired ==>
                      old(LeastRecentlyUsed(unexpired, victim)))
      // Sessions are reused: a pooled one that is not too old is handed out and nothing changes.
      ensures var key := PoolKey(url, headers);
              key in old(entries) && now - old(entries)[key].createdAt <= maxAge ==>
                && entry == old(entries)[key] && entries == old(entries)
                && made == old(made) && Live(made) == old(Live(made))
      // Nothing is given up without need: only one that is too old, or one of a full pool.
      ensures var key := PoolKey(url, headers);
              (key in old(entries) ==> now - old(entries)[key].createdAt <= maxAge) && |old(entries)| < maxSize ==>
                Within(old(entries), entries) && old(Live(made)) <= Live(made)
    {
      var key := PoolKey(url, headers);
      UnexpiredMeans(entries, key, now, maxAge);
      PopExpired(key, now);
      victim := key;
      if key in entries {
        return entries[key], key;
      }
      ghost var unexpired, live := entries, Live(made);
      victim := MakeRoom();
      OnlyClosedTwice(old(Live(made)), old(entries), live, unexpired, Live(made), entries);
      ghost var others := entries;
      entry := Add(url, headers, now);
      AddingClosesNone(old(Live(made)), old(entries), Live(made), others, entry);
    }

    /** A new entry, not yet initialized, under its key. */
    method Add(url: string, headers: Headers, now: real) returns (entry: PoolEntry)
      requires Keyed() && |entries| < Max(1, maxSize) && PoolKey(url, headers) !in entries
      modifies this`entries, this`made
      ensures Valid() && fresh(entry) && entry.key == PoolKey(url, headers)
      ensures entry.createdAt == now && !entry.initialized
      ensures entries == old(entries)[entry.key := entry] && made == old(made) + {entry}
      ensures Live(made) == old(Live(made))
    {
      entry := new PoolEntry(url, headers, now);
      entries := entries[PoolKey(url, headers) := entry];
      made := made + {entry};
    }

    /** Drops whatever session is under the key after a failed call: this need not be the one that
        failed, if another caller has replaced it meanwhile. */
    method Evict(url: string, headers: Headers)
      requires Valid()
      modifies this`entries, made`initialized
      ensures Valid() && entries == old(entries) - {PoolKey(url, headers)}
      ensures OnlyClosed(old(Live(made)), old(entries), Live(made), entries)
    {
      var key := PoolKey(url, headers);
      if key in entries {
        Pop(key);
      }
    }

    /** Drops exactly the sessions of one source, whatever their headers. */
    method EvictBySourceUrl(sourceUrl: string)
      requires Valid()
      modifies this`entries, made`initialized
      ensures Valid()
      ensures entries == NotFrom(old(entries), sourceUrl)
      ensures OnlyClosed(old(Live(made)), old(entries), Live(made), entries)
    {
      ghost var all, live0 := entries, Live(made);
      var todo := set k | k in entries && entries[k].key.url == sourceUrl;
      while todo != {}
        invariant Valid() && Within(entries, all) && todo <= entries.Keys
        invariant forall k :: k in entries ==> (k in todo <==> k.url == sourceUrl)
        invariant NotFrom(entries, sourceUrl) == NotFrom(all, sourceUrl)
        invariant OnlyClosed(live0, all, Live(made), entries)
        decreases |todo|
      {
        var key :| key in todo;
        todo := todo - {key};
        ghost var before, live := entries, Live(made);
        Pop(key);
        LoseOne(before, key);
        OnlyClosedTwice(live0, all, live, before, Live(made), entries);
      }
      assert NotFrom(entries, sourceUrl) == entries;
    }
  }

  // ---------------------------------------------------------------------------------------
  // Sessions the pool has given up
  // ---------------------------------------------------------------------------------------

  /** The pool gave the entry up, and somebody connected it afterwards. */
  ghost predicate Revived(uses: seq<Use>) {
    exists i, j :: 0 <= i < j < |uses| && uses[i] == GivenUp && uses[j] == Connected(true)
  }

  lemma RevivedLater(uses: seq<Use>)
    requires uses != []
    ensures Revived(uses) <==> Revived(uses[1..]) || (uses[0] == GivenUp && Connected(true) in uses[1..])
  {
    if i, j :| 0 <= i < j < |uses| && uses[i] == GivenUp && uses[j] == Connected(true) {
      if i > 0 {
        assert uses[1..][i - 1] == GivenUp && uses[1..][j - 1] == Connected(true);
      } else {
        assert uses[1..][j - 1] == Connected(true);
      }
    }
    if i, j :| 0 <= i < j < |uses[1..]| && uses[1..][i] == GivenUp && uses[1..][j] == Connected(true) {
      assert uses[i + 1] == GivenUp && uses[j + 1] == Connected(true);
    }
    if j :| 0 <= j < |uses[1..]| && uses[1..][j] == Connected(true) {
      assert uses[j + 1] == Connected(true);
    }
  }

  /** Outside the pool nothing but connecting changes whether an entry is initialized, and nothing ends
      it: the pool does not close the entry again. */
  lemma {:induction false} OutsideThePool(l: Life, uses: seq<Use>)
    requires Possible(l, uses) && !l.pooled
    ensures var l' := After(l, uses);
            && !l'.pooled && !Revived(uses)
            && (l'.initialized <==> l.initialized || Connected(true) in uses)
    decreases |uses|
  {
    if uses != [] {
      OutsideThePool(Step(l, uses[0]), uses[1..]);
      RevivedLater(uses);
      assert uses == [uses[0]] + uses[1..];
    }
  }

  /** Over any life: an entry outside the pool is initialized if and only if somebody connected it after
      it was given up, one in the pool if and only if somebody ever did. */
  lemma {:induction false} OrphanIffRevived(l: Life, uses: seq<Use>)
    requires Possible(l, uses) && l.pooled
    ensures !After(l, uses).pooled ==> (After(l, uses).initialized <==> Revived(uses))
    ensures After(l, uses).pooled ==> (After(l, uses).initialized <==> l.initialized || Connected(true) in uses)
    decreases |uses|
  {
    if uses != [] {
      var l', rest := Step(l, uses[0]), uses[1..];
      RevivedLater(uses);
      assert uses == [uses[0]] + rest;
      if l'.pooled {
        OrphanIffRevived(l', rest);
      } else {
        OutsideThePool(l', rest);
      }
    }
  }

  /** Somebody who was handed the entry has still to begin with it or is connecting it. */
  predicate Pending(l: Life) {
    l.waiting > 0 || l.connecting
  }

  lemma NothingHappensAnyMore(l: Life, uses: seq<Use>)
    requires Possible(l, uses) && !l.pooled && !Pending(l)
    ensures uses == []
  {
  }

  lemma SomebodyConnects(l: Life) returns (uses: seq<Use>)
    requires Pending(l) && !l.initialized
    ensures Possible(l, uses) && After(l, uses).initialized
  {
    var connected := [Connected(true)];
    assert connected[1..] == [];
    if l.connecting {
      uses := connected;
    } else {
      uses := [Begun(false)] + connected;
      assert uses[1..] == connected && Possible(Step(l, Begun(false)), connected);
    }
  }

  /** An entry that was given up can come back to life. */
  ghost predicate MayRevive(gone: Life) {
    exists uses :: Possible(gone, uses) && After(gone, uses).initialized
  }

  /** What a caller can check before giving an entry up: it can come back to life outside the pool if and
      only if somebody who was handed it has still to begin with it or is connecting it. */
  lemma MayReviveIffPending(l: Life)
    requires l.pooled
    ensures MayRevive(Step(l, GivenUp)) <==> Pending(l)
  {
    var gone := Step(l, GivenUp);
    if Pending(l) {
      var uses := SomebodyConnects(gone);
    } else if uses :| Possible(gone, uses) && After(gone, uses).initialized {
      NothingHappensAnyMore(gone, uses);
    }
  }

  /** It happens while a caller connects the entry, whose own lock does not keep the pool from giving it
      up ... */
  method EvictedWhileConnecting(pool: MCPSessionPool, entry: PoolEntry, now: real)
    requires pool.Valid() && Holds(pool.entries, entry) && !entry.initialized
    modifies pool`entries, pool.made`initialized, entry
    ensures pool.Valid() && pool.entries == old(pool.entries) - {entry.key}
    ensures !Holds(pool.entries, entry) && entry in Live(pool.made)
  {
    var ready;
    ghost var life := NEW;
    ready, life := entry.BeginUse(now, life);
    pool.Evict(entry.key.url, entry.key.headers);
    life := Step(life, GivenUp);
    assert entry in pool.made && entry !in Live(pool.made);
    life := entry.FinishConnecting(true, now, life);
  }

  /** ... and to an entry nobody is connecting: the caller who waited for it finds it closed and connects
      it again. */
  method EvictedWhileWaiting(pool: MCPSessionPool, entry: PoolEntry, now: real)
    requires pool.Valid() && Holds(pool.entries, entry) && entry.initialized
    modifies pool`entries, pool.made`initialized, entry
    ensures pool.Valid() && pool.entries == old(pool.entries) - {entry.key}
    ensures !Holds(pool.entries, entry) && entry in Live(pool.made)
  {
    var ready;
    ghost var life := Life(true, true, 1, false);
    pool.Evict(entry.key.url, entry.key.headers);
    life := Step(life, GivenUp);
    assert entry in pool.made && entry !in Live(pool.made);
    ready, life := entry.BeginUse(now, life);
    life := entry.FinishConnecting(true, now, life);
  }
}
