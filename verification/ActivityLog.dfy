/** The batching activity logger of backend/app/services/activity_logger.py as a protocol between
    any number of producers and the flush tasks they start.

    Every step below is one section the event loop cannot interrupt: a locked section, or the code
    between two suspensions of a flush task.
 */
module ActivityLog {
  import opened Common

  const BATCH_SIZE := 100
  const MAX_PENDING := BATCH_SIZE * 10
  const BROADCAST_BUFFER_SIZE := 1000

  /** `number` is the position in which `log` accepted the entry; it stands for the unique id. */
  datatype Entry = Entry(number: nat, message: string)

  /** Where a flush task is: waiting for its interval, holding a batch taken from the queue,
      about to re-queue a batch whose commit failed, or in its `finally` block. */
  datatype Phase =
    | Sleeping
    | Writing(batch: seq<Entry>)
    | Failed(batch: seq<Entry>)
    | Finishing

  /** `pending` to `nextTask` are the service and its tasks, `persisted` is the database table;
      the rest is the history that the guarantees speak about. */
  datatype System = System(
    pending: seq<Entry>,
    broadcast: seq<Entry>,
    scheduled: bool,
    hasFactory: bool,
    tasks: map<nat, Phase>,
    nextTask: nat,
    persisted: seq<Entry>,
    accepted: seq<Entry>,
    overflowed: seq<Entry>,
    unsaved: seq<Entry>)

  const INITIAL := System([], [], false, false, map[], 0, [], [], [], [])

  datatype Event =
    | Log(message: string)
    | SetFactory(present: bool)
    | Take(task: nat)
    | Commit(task: nat, ok: bool)
    | Requeue(task: nat)
    | Finish(task: nat)

  // ---------------------------------------------------------------------------------------
  // Steps
  // ---------------------------------------------------------------------------------------

  /** `deque(maxlen=n).append` */
  function Push(buffer: seq<Entry>, e: Entry): seq<Entry> {
    var longer := buffer + [e];
    if |longer| > BROADCAST_BUFFER_SIZE then longer[1..] else longer
  }

  predicate InPhase(s: System, task: nat, p: Phase) {
    task in s.tasks && s.tasks[task] == p
  }

  predicate Enabled(s: System, e: Event) {
    match e
    case Log(_) => true
    case SetFactory(_) => true
    case Take(t) => InPhase(s, t, Sleeping)
    case Commit(t, _) => t in s.tasks && s.tasks[t].Writing?
    case Requeue(t) => t in s.tasks && s.tasks[t].Failed?
    case Finish(t) => InPhase(s, t, Finishing)
  }

  /** `asyncio.create_task(self._flush_batch_safe())` with the flag set. */
  function Spawn(s: System): System {
    s.(scheduled := true, tasks := s.tasks[s.nextTask := Sleeping], nextTask := s.nextTask + 1)
  }

  function AfterLog(s: System, message: string): System {
    var e := Entry(|s.accepted|, message);
    var s' := s.(pending := s.pending + [e], broadcast := Push(s.broadcast, e), accepted := s.accepted + [e]);
    if s.scheduled then s' else Spawn(s')
  }

  /** The flusher takes the whole queue.  Whether there is a session factory is decided in the same
      breath; without one, what was taken is not persisted. */
  function AfterTake(s: System, t: nat): System {
    if s.pending == [] then s.(tasks := s.tasks[t := Finishing])
    else if !s.hasFactory then s.(tasks := s.tasks[t := Finishing], pending := [], unsaved := s.unsaved + s.pending)
    else s.(tasks := s.tasks[t := Writing(s.pending)], pending := [])
  }

  /** How much of a failed batch still fits into the queue. */
  function Kept(s: System, batch: seq<Entry>): nat {
    if |s.pending| >= MAX_PENDING then 0
    else if |batch| <= MAX_PENDING - |s.pending| then |batch|
    else MAX_PENDING - |s.pending|
  }

  function AfterRequeue(s: System, t: nat, batch: seq<Entry>): System {
    var k := Kept(s, batch);
    s.(pending := batch[..k] + s.pending, tasks := s.tasks[t := Finishing], overflowed := s.overflowed + batch[k..])
  }

  function AfterFinish(s: System, t: nat): System {
    var s' := s.(scheduled := false, tasks := s.tasks - {t});
    if s.pending == [] then s' else Spawn(s')
  }

  function Step(s: System, e: Event): System
    requires Enabled(s, e)
  {
    match e
    case Log(message) => AfterLog(s, message)
    case SetFactory(present) => s.(hasFactory := present)
    case Take(t) => AfterTake(s, t)
    case Commit(t, ok) =>
      if ok then s.(tasks := s.tasks[t := Finishing], persisted := s.persisted + s.tasks[t].batch)
      else s.(tasks := s.tasks[t := Failed(s.tasks[t].batch)])
    case Requeue(t) => AfterRequeue(s, t, s.tasks[t].batch)
    case Finish(t) => AfterFinish(s, t)
  }

  /** `events` is a possible run: every step is enabled when it happens. */
  ghost predicate Possible(s: System, events: seq<Event>)
    decreases |events|
  {
    events == [] || (Enabled(s, events[0]) && Possible(Step(s, events[0]), events[1..]))
  }

  function Run(s: System, events: seq<Event>): System
    requires Possible(s, events)
    decreases |events|
  {
    if events == [] then s else Run(Step(s, events[0]), events[1..])
  }

  // ---------------------------------------------------------------------------------------
  // The service
  // ---------------------------------------------------------------------------------------

  class ActivityLoggerService {
    var pendingLogs: seq<Entry>
    var broadcastBuffer: seq<Entry>
    var batchTaskScheduled: bool
    var hasSessionFactory: bool
    var tasks: map<nat, Phase>
    var nextTask: nat
    ghost var persisted: seq<Entry>
    ghost var accepted: seq<Entry>
    ghost var overflowed: seq<Entry>
    ghost var unsaved: seq<Entry>
    var count: nat

    ghost function Value(): System
      reads this
    {
      System(pendingLogs, broadcastBuffer, batchTaskScheduled, hasSessionFactory, tasks, nextTask,
             persisted, accepted, overflowed, unsaved)
    }

    ghost predicate Valid()
      reads this
    {
      count == |accepted|
    }

    constructor ()
      ensures Valid() && Value() == INITIAL
    {
      pendingLogs, broadcastBuffer, batchTaskScheduled, hasSessionFactory := [], [], false, false;
      tasks, nextTask, count := map[], 0, 0;
      persisted, accepted, overflowed, unsaved := [], [], [], [];
    }

    method CreateFlushTask()
      requires Valid()
      modifies this
      ensures Valid() && Value() == Spawn(old(Value()).(scheduled := true))
    {
      batchTaskScheduled := true;
      tasks := tasks[nextTask := Sleeping];
      nextTask := nextTask + 1;
    }

    method SetDbSessionFactory(present: bool)
      requires Valid()
      modifies this
      ensures Valid() && Value() == Step(old(Value()), SetFactory(present))
    {
      hasSessionFactory := present;
    }

    /** The locked section of `log`. */
    method Log(message: string) returns (entry: Entry)
      requires Valid()
      modifies this
      ensures Valid() && Value() == Step(old(Value()), Event.Log(message))
      ensures entry == Entry(|old(accepted)|, message)
    {
      entry := Entry(count, message);
      count := count + 1;
      pendingLogs := pendingLogs + [entry];
      broadcastBuffer := Push(broadcastBuffer, entry);
      accepted := accepted + [entry];
      if !batchTaskScheduled {
        CreateFlushTask();
      }
    }

    /** `_flush_batch` after its sleep: the first locked section, and the check for a session factory,
        which follows without suspension. */
    method TakeBatch(t: nat)
      requires Valid() && Enabled(Value(), Take(t))
      modifies this
      ensures Valid() && Value() == Step(old(Value()), Take(t))
    {
      if pendingLogs == [] {
        tasks := tasks[t := Finishing];
        return;
      }
      var logsToWrite := pendingLogs;
      pendingLogs := [];
      if !hasSessionFactory {
        unsaved := unsaved + logsToWrite;
        tasks := tasks[t := Finishing];
        return;
      }
      tasks := tasks[t := Writing(logsToWrite)];
    }

    /** The transaction commits, or fails and is rolled back. */
    method CommitBatch(t: nat, ok: bool)
      requires Valid() && Enabled(Value(), Commit(t, ok))
      modifies this
      ensures Valid() && Value() == Step(old(Value()), Commit(t, ok))
    {
      if ok {
        persisted := persisted + tasks[t].batch;
        tasks := tasks[t := Finishing];
      } else {
        tasks := tasks[t := Failed(tasks[t].batch)];
      }
    }

    /** The locked section of the error handler. */
    method RequeueBatch(t: nat)
      requires Valid() && Enabled(Value(), Requeue(t))
      modifies this
      ensures Valid() && Value() == Step(old(Value()), Requeue(t))
    {
      var logsToWrite := tasks[t].batch;
      var maxPending := BATCH_SIZE * 10;
      var currentCount := |pendingLogs|;
      if currentCount < maxPending {
        var availableSlots := maxPending - currentCount;
        var logsToReadd := if availableSlots < |logsToWrite| then logsToWrite[..availableSlots] else logsToWrite;
        pendingLogs := logsToReadd + pendingLogs;
        overflowed := overflowed + logsToWrite[|logsToReadd|..];
        assert logsToReadd == logsToWrite[..|logsToReadd|];
      } else {
        overflowed := overflowed + logsToWrite;
        assert logsToWrite[..0] + pendingLogs == pendingLogs && logsToWrite[0..] == logsToWrite;
      }
      tasks := tasks[t := Finishing];
    }

    /** The `finally` block; the flush task ends. */
    method FinishFlush(t: nat)
      requires Valid() && Enabled(Value(), Finish(t))
      modifies this
      ensures Valid() && Value() == Step(old(Value()), Finish(t))
    {
      batchTaskScheduled := false;
      tasks := tasks - {t};
      if pendingLogs != [] {
        CreateFlushTask();
      }
    }

    /** `list(buffer)[-count:]` for the count a caller asks for. */
    method GetRecentLogs(n: int) returns (recent: seq<Entry>)
      ensures recent == RecentLogs(broadcastBuffer, n)
    {
      recent := RecentLogs(broadcastBuffer, n);
    }
  }

  /** Python's `buffer[-n:]`: a non-positive `n` counts from the front. */
  function RecentLogs(buffer: seq<Entry>, n: int): seq<Entry> {
    if n > 0 then if n >= |buffer| then buffer else buffer[|buffer| - n..]
    else if -n >= |buffer| then [] else buffer[-n..]
  }

  // ---------------------------------------------------------------------------------------
  // The invariant
  // ---------------------------------------------------------------------------------------

  /** At most one flush task is alive, and one is alive exactly when the flag says so. */
  ghost predicate SingleFlusher(s: System) {
    && (s.scheduled ==> exists t :: s.tasks.Keys == {t})
    && (!s.scheduled ==> s.tasks == map[])
    && (forall t :: t in s.tasks ==> t < s.nextTask)
  }

  /** Whenever the lock is free, a non-empty queue has a flush task that will look at it. */
  ghost predicate NoLostWakeup(s: System) {
    s.pending != [] ==> s.scheduled
  }

  function BatchOf(p: Phase): seq<Entry> {
    match p
    case Writing(batch) => batch
    case Failed(batch) => batch
    case _ => []
  }

  /** The batch the flusher holds. */
  ghost function InFlight(s: System): seq<Entry> {
    if s.tasks == map[] then []
    else
      var t :| t in s.tasks;
      BatchOf(s.tasks[t])
  }

  /** Everything that is saved or still on its way. */
  ghost function Live(s: System): seq<Entry> {
    s.persisted + InFlight(s) + s.pending
  }

  /** `live` is a subsequence of `accepted`, without duplicates: its entries sit at strictly
      increasing positions of `accepted`. */
  ghost predicate InOrder(live: seq<Entry>, accepted: seq<Entry>) {
    && (forall i :: 0 <= i < |live| ==> live[i].number < |accepted| && accepted[live[i].number] == live[i])
    && (forall i, j :: 0 <= i < j < |live| ==> live[i].number < live[j].number)
  }

  /** No entry is lost or invented: each accepted one is live or was dropped for one of the two
      documented reasons, exactly once. */
  ghost predicate Conserved(live: seq<Entry>, accepted: seq<Entry>, overflowed: seq<Entry>, unsaved: seq<Entry>) {
    multiset(accepted) == multiset(live) + multiset(overflowed) + multiset(unsaved)
  }

  ghost predicate Numbered(accepted: seq<Entry>) {
    forall i :: 0 <= i < |accepted| ==> accepted[i].number == i
  }

  function LastOf(s: seq<Entry>, n: nat): seq<Entry> {
    if |s| <= n then s else s[|s| - n..]
  }

  ghost predicate Ledger(live: seq<Entry>, accepted: seq<Entry>, overflowed: seq<Entry>, unsaved: seq<Entry>) {
    && Numbered(accepted)
    && InOrder(live, accepted)
    && Conserved(live, accepted, overflowed, unsaved)
  }

  ghost predicate Inv(s: System) {
    && SingleFlusher(s) && NoLostWakeup(s)
    && Ledger(Live(s), s.accepted, s.overflowed, s.unsaved)
    && s.broadcast == LastOf(s.accepted, BROADCAST_BUFFER_SIZE)
  }

  // ---------------------------------------------------------------------------------------
  // Every step keeps it
  // ---------------------------------------------------------------------------------------

  lemma OnlyTask(s: System, t: nat)
    requires SingleFlusher(s) && t in s.tasks
    ensures s.scheduled && s.tasks.Keys == {t} && InFlight(s) == BatchOf(s.tasks[t])
  {
    var u :| s.tasks.Keys == {u};
    assert t in {u};
  }

  /** The task moves to phase `p`; nothing else about tasks changes. */
  lemma MovesTo(s: System, t: nat, p: Phase, s': System)
    requires SingleFlusher(s) && t in s.tasks
    requires s'.tasks == s.tasks[t := p] && s'.scheduled == s.scheduled && s'.nextTask == s.nextTask
    ensures SingleFlusher(s') && InFlight(s') == BatchOf(p)
  {
    OnlyTask(s, t);
    assert s'.tasks.Keys == {t};
    OnlyTask(s', t);
  }

  lemma DropMiddle(a: seq<Entry>, b: seq<Entry>, c: seq<Entry>, accepted: seq<Entry>)
    requires InOrder(a + b + c, accepted)
    ensures InOrder(a + c, accepted)
  {
    var all, rest := a + b + c, a + c;
    forall i | 0 <= i < |rest| ensures rest[i] == all[if i < |a| then i else i + |b|] {
    }
  }

  lemma AppendNew(live: seq<Entry>, accepted: seq<Entry>, e: Entry)
    requires InOrder(live, accepted) && e.number == |accepted|
    ensures InOrder(live + [e], accepted + [e])
  {
  }

  lemma PushKeepsLast(accepted: seq<Entry>, e: Entry)
    ensures Push(LastOf(accepted, BROADCAST_BUFFER_SIZE), e) == LastOf(accepted + [e], BROADCAST_BUFFER_SIZE)
  {
  }

  lemma LogTasks(s: System, message: string)
    requires Inv(s)
    ensures var s' := AfterLog(s, message);
            SingleFlusher(s') && s'.scheduled && InFlight(s') == InFlight(s)
  {
    var s' := AfterLog(s, message);
    if !s.scheduled {
      assert s'.tasks.Keys == {s.nextTask};
      OnlyTask(s', s.nextTask);
    }
  }

  /** The entry joins the end of everything that is on its way. */
  lemma LedgerAppend(live: seq<Entry>, accepted: seq<Entry>, o: seq<Entry>, u: seq<Entry>, e: Entry)
    requires Ledger(live, accepted, o, u) && e.number == |accepted|
    ensures Ledger(live + [e], accepted + [e], o, u)
  {
    AppendNew(live, accepted, e);
  }

  lemma LogKeeps(s: System, message: string)
    requires Inv(s)
    ensures Inv(AfterLog(s, message))
  {
    var e := Entry(|s.accepted|, message);
    LogTasks(s, message);
    LedgerAppend(Live(s), s.accepted, s.overflowed, s.unsaved, e);
    assert Live(AfterLog(s, message)) == Live(s) + [e];
    PushKeepsLast(s.accepted, e);
  }

  lemma CommitKeeps(s: System, t: nat, ok: bool)
    requires Inv(s) && Enabled(s, Commit(t, ok))
    ensures Inv(Step(s, Commit(t, ok)))
  {
    var s' := Step(s, Commit(t, ok));
    OnlyTask(s, t);
    MovesTo(s, t, s'.tasks[t], s');
    assert Live(s') == Live(s);
  }

  /** A batch that is not persisted leaves what is on its way ... */
  lemma LedgerSkip(a: seq<Entry>, b: seq<Entry>, c: seq<Entry>, accepted: seq<Entry>, o: seq<Entry>, u: seq<Entry>)
    requires Ledger(a + b + c, accepted, o, u)
    ensures Ledger(a + c, accepted, o, u + b)
  {
    DropMiddle(a, b, c, accepted);
  }

  /** ... and so do the entries that do not fit into the queue again. */
  lemma LedgerOverflow(a: seq<Entry>, b: seq<Entry>, c: seq<Entry>, accepted: seq<Entry>, o: seq<Entry>, u: seq<Entry>)
    requires Ledger(a + b + c, accepted, o, u)
    ensures Ledger(a + c, accepted, o + b, u)
  {
    DropMiddle(a, b, c, accepted);
  }

  lemma TakeKeeps(s: System, t: nat)
    requires Inv(s) && InPhase(s, t, Sleeping)
    ensures Inv(AfterTake(s, t))
  {
    var s' := AfterTake(s, t);
    OnlyTask(s, t);
    MovesTo(s, t, s'.tasks[t], s');
    if s.pending != [] && !s.hasFactory {
      assert Live(s) == s.persisted + s.pending + [];
      LedgerSkip(s.persisted, s.pending, [], s.accepted, s.overflowed, s.unsaved);
      assert Live(s') == s.persisted + [];
    } else {
      assert Live(s') == Live(s);
    }
  }

  lemma RequeueTasks(s: System, t: nat)
    requires SingleFlusher(s) && NoLostWakeup(s) && Enabled(s, Requeue(t))
    ensures var s', batch := Step(s, Requeue(t)), s.tasks[t].batch;
            var k := Kept(s, batch);
            && SingleFlusher(s') && NoLostWakeup(s')
            && Live(s) == (s.persisted + batch[..k]) + batch[k..] + s.pending
            && Live(s') == (s.persisted + batch[..k]) + s.pending
  {
    var s', batch := Step(s, Requeue(t)), s.tasks[t].batch;
    OnlyTask(s, t);
    MovesTo(s, t, Finishing, s');
    SplitBatch(s.persisted, batch, Kept(s, batch), s.pending);
  }

  lemma SplitBatch(a: seq<Entry>, batch: seq<Entry>, k: nat, c: seq<Entry>)
    requires k <= |batch|
    ensures a + batch + c == (a + batch[..k]) + batch[k..] + c
    ensures a + [] + (batch[..k] + c) == (a + batch[..k]) + c
  {
    assert batch == batch[..k] + batch[k..];
  }

  lemma RequeueKeeps(s: System, t: nat)
    requires Inv(s) && Enabled(s, Requeue(t))
    ensures Inv(Step(s, Requeue(t)))
  {
    var batch := s.tasks[t].batch;
    var k := Kept(s, batch);
    RequeueTasks(s, t);
    LedgerOverflow(s.persisted + batch[..k], batch[k..], s.pending, s.accepted, s.overflowed, s.unsaved);
  }

  lemma FinishKeeps(s: System, t: nat)
    requires Inv(s) && InPhase(s, t, Finishing)
    ensures Inv(AfterFinish(s, t))
  {
    FinishTasks(s, t);
  }

  lemma StepKeeps(s: System, e: Event)
    requires Inv(s) && Enabled(s, e)
    ensures Inv(Step(s, e))
  {
    match e {
      case Log(message) => LogKeeps(s, message);
      case SetFactory(present) =>
        assert InFlight(s.(hasFactory := present)) == InFlight(s);
        assert Live(s.(hasFactory := present)) == Live(s);
      case Take(t) => TakeKeeps(s, t);
      case Commit(t, ok) => CommitKeeps(s, t, ok);
      case Requeue(t) => RequeueKeeps(s, t);
      case Finish(t) => FinishKeeps(s, t);
    }
  }

  /** In every reachable state, for every interleaving of producers and failing or succeeding
      flushes: one flusher, no lost wake-up, no entry lost, duplicated or out of order. */
  lemma {:induction false} EveryRunKeepsTheLog(s: System, events: seq<Event>)
    requires Inv(s) && Possible(s, events)
    ensures Inv(Run(s, events))
    decreases |events|
  {
    if events != [] {
      StepKeeps(s, events[0]);
      EveryRunKeepsTheLog(Step(s, events[0]), events[1..]);
    }
  }

  /** In particular from the start. */
  lemma EveryReachableStateKeepsTheLog(events: seq<Event>)
    requires Possible(INITIAL, events)
    ensures Inv(Run(INITIAL, events))
  {
    EveryRunKeepsTheLog(INITIAL, events);
  }

  // ---------------------------------------------------------------------------------------
  // What is saved
  // ---------------------------------------------------------------------------------------

  /** The entries `log` was given, numbered in the order of its calls. */
  function Logged(events: seq<Event>, n: nat): seq<Entry>
    decreases |events|
  {
    if events == [] then []
    else if events[0].Log? then [Entry(n, events[0].message)] + Logged(events[1..], n + 1)
    else Logged(events[1..], n)
  }

  /** Exactly these are accepted. */
  lemma {:induction false} AcceptedAreLogged(s: System, events: seq<Event>)
    requires Possible(s, events)
    ensures Run(s, events).accepted == s.accepted + Logged(events, |s.accepted|)
    decreases |events|
  {
    if events != [] {
      AcceptedAreLogged(Step(s, events[0]), events[1..]);
      if events[0].Log? {
        assert s.accepted + [Entry(|s.accepted|, events[0].message)] + Logged(events[1..], |s.accepted| + 1)
            == s.accepted + ([Entry(|s.accepted|, events[0].message)] + Logged(events[1..], |s.accepted| + 1));
      }
    }
  }

  /** What one event adds to the database: the batch of a commit that succeeds. */
  function Saves(s: System, e: Event): seq<Entry>
    requires Enabled(s, e)
  {
    if e.Commit? && e.ok then BatchOf(s.tasks[e.task]) else []
  }

  /** What one event drops for lack of a session factory: the queue a flusher takes without one. */
  function Discards(s: System, e: Event): seq<Entry>
    requires Enabled(s, e)
  {
    if e.Take? && !s.hasFactory then s.pending else []
  }

  function SavedBy(s: System, events: seq<Event>): seq<Entry>
    requires Possible(s, events)
    decreases |events|
  {
    if events == [] then [] else Saves(s, events[0]) + SavedBy(Step(s, events[0]), events[1..])
  }

  function DiscardedBy(s: System, events: seq<Event>): seq<Entry>
    requires Possible(s, events)
    decreases |events|
  {
    if events == [] then [] else Discards(s, events[0]) + DiscardedBy(Step(s, events[0]), events[1..])
  }

  /** Over any run the database gains exactly the batches whose commit succeeded, in order, and nothing is
      discarded but the queues taken without a session factory. */
  lemma {:induction false} PersistedAreCommitted(s: System, events: seq<Event>)
    requires Possible(s, events)
    ensures Run(s, events).persisted == s.persisted + SavedBy(s, events)
    ensures Run(s, events).unsaved == s.unsaved + DiscardedBy(s, events)
    decreases |events|
  {
    if events == [] {
      assert s.persisted + [] == s.persisted && s.unsaved + [] == s.unsaved;
    } else {
      var e, s' := events[0], Step(s, events[0]);
      PersistedAreCommitted(s', events[1..]);
      OneStepSaves(s, e);
      assert (s.persisted + Saves(s, e)) + SavedBy(s', events[1..])
          == s.persisted + (Saves(s, e) + SavedBy(s', events[1..]));
      assert (s.unsaved + Discards(s, e)) + DiscardedBy(s', events[1..])
          == s.unsaved + (Discards(s, e) + DiscardedBy(s', events[1..]));
    }
  }

  lemma OneStepSaves(s: System, e: Event)
    requires Enabled(s, e)
    ensures Step(s, e).persisted == s.persisted + Saves(s, e)
    ensures Step(s, e).unsaved == s.unsaved + Discards(s, e)
  {
    assert s.persisted + [] == s.persisted && s.unsaved + [] == s.unsaved;
  }

  /** So a run without a successful commit saves nothing. */
  lemma {:induction false} NothingWithoutCommit(s: System, events: seq<Event>)
    requires Possible(s, events) && forall e :: e in events ==> !(e.Commit? && e.ok)
    ensures Run(s, events).persisted == s.persisted
    decreases |events|
  {
    if events != [] {
      assert events[0] in events && forall e :: e in events[1..] ==> e in events;
      OneStepSaves(s, events[0]);
      assert s.persisted + [] == s.persisted;
      NothingWithoutCommit(Step(s, events[0]), events[1..]);
    }
  }

  /** How many of a batch's entries fit into the queue again: all of them, or as many as make it reach its
      limit. */
  ghost predicate FitsExactly(k: nat, batch: seq<Entry>, pending: seq<Entry>) {
    && k <= |batch|
    && (k > 0 ==> k + |pending| <= 1000)
    && (k < |batch| ==> k + |pending| >= 1000)
  }

  /** `s'` is `s` with more entries in the queue. */
  ghost predicate Queued(s: System, s': System, added: seq<Entry>) {
    && s'.pending == s.pending + added
    && s'.tasks == s.tasks && s'.scheduled == s.scheduled
    && s'.persisted == s.persisted && s'.unsaved == s.unsaved && s'.overflowed == s.overflowed
  }

  /** The batch is in front of the queue as far as it fits, and the rest of it is dropped. */
  ghost predicate Returned(s: System, s': System, t: nat, batch: seq<Entry>, queue: seq<Entry>) {
    && s'.persisted == s.persisted && s'.unsaved == s.unsaved && InPhase(s', t, Finishing)
    && exists k: nat :: FitsExactly(k, batch, queue)
         && s'.pending == batch[..k] + queue && s'.overflowed == s.overflowed + batch[k..]
  }

  /** A commit that fails and the re-queue after it, whatever was logged in between: the database is as it
      was, and the batch is at the front of the queue, in order, as far as it fits; the rest of it, and
      nothing else, is dropped. */
  lemma FailedBatchReturns(s: System, t: nat, messages: seq<Event>)
    requires Inv(s) && Enabled(s, Commit(t, false)) && forall e :: e in messages ==> e.Log?
    ensures var events := [Commit(t, false)] + (messages + [Requeue(t)]);
            && Possible(s, events)
            && Returned(s, Run(s, events), t, BatchOf(s.tasks[t]), s.pending + Logged(messages, |s.accepted|))
  {
    var batch, failed := BatchOf(s.tasks[t]), Step(s, Commit(t, false));
    assert failed.scheduled by {
      OnlyTask(s, t);
    }
    LogsQueueUp(failed, messages);
    var late := Run(failed, messages);
    RunSnoc(failed, messages, Requeue(t));
    PlanCons(s, Commit(t, false), messages + [Requeue(t)]);
    RequeueReturns(late, t, batch);
  }

  lemma RequeueReturns(s: System, t: nat, batch: seq<Entry>)
    requires t in s.tasks && s.tasks[t] == Failed(batch)
    ensures Enabled(s, Requeue(t)) && Returned(s, Step(s, Requeue(t)), t, batch, s.pending)
  {
    assert FitsExactly(Kept(s, batch), batch, s.pending);
  }

  lemma {:induction false} LogsQueueUp(s: System, messages: seq<Event>)
    requires s.scheduled && forall e :: e in messages ==> e.Log?
    ensures Possible(s, messages)
    ensures Queued(s, Run(s, messages), Logged(messages, |s.accepted|))
    decreases |messages|
  {
    if messages == [] {
      assert s.pending + [] == s.pending;
    } else {
      assert messages[0] in messages && forall e :: e in messages[1..] ==> e in messages;
      var s' := Step(s, messages[0]);
      LogsQueueUp(s', messages[1..]);
      OneMoreQueued(s, messages[0].message, Run(s', messages[1..]), Logged(messages[1..], |s.accepted| + 1));
    }
  }

  lemma OneMoreQueued(s: System, message: string, s'': System, added: seq<Entry>)
    requires s.scheduled && Queued(AfterLog(s, message), s'', added)
    ensures Queued(s, s'', [Entry(|s.accepted|, message)] + added)
  {
    var e := Entry(|s.accepted|, message);
    assert s.pending + [e] + added == s.pending + ([e] + added);
  }

  lemma {:induction false} RunSnoc(s: System, events: seq<Event>, e: Event)
    requires Possible(s, events) && Enabled(Run(s, events), e)
    ensures Possible(s, events + [e]) && Run(s, events + [e]) == Step(Run(s, events), e)
    decreases |events|
  {
    if events == [] {
      assert [] + [e] == [e] && [e][1..] == [];
    } else {
      RunSnoc(Step(s, events[0]), events[1..], e);
      assert (events + [e])[1..] == events[1..] + [e];
    }
  }

  // ---------------------------------------------------------------------------------------
  // What is dropped
  // ---------------------------------------------------------------------------------------

  /** A failed batch loses entries exactly when the queue would exceed its limit, then only its
      newest ones, and re-queueing never takes the queue beyond the limit. */
  lemma CapacityRule(s: System, t: nat)
    requires Enabled(s, Requeue(t))
    ensures var s', batch := Step(s, Requeue(t)), s.tasks[t].batch;
            && |s'.pending| <= Max(1000, |s.pending|)
            && (s'.overflowed == s.overflowed <==> batch == [] || |batch| + |s.pending| <= 1000)
            && exists k: nat :: k <= |batch| && s'.pending == batch[..k] + s.pending
                                && s'.overflowed == s.overflowed + batch[k..]
  {
    var s', batch := Step(s, Requeue(t)), s.tasks[t].batch;
    var k := Kept(s, batch);
    assert s'.pending == batch[..k] + s.pending && s'.overflowed == s.overflowed + batch[k..];
    assert |s'.overflowed| == |s.overflowed| + |batch| - k;
    if k == |batch| {
      assert batch[k..] == [] && s.overflowed + [] == s.overflowed;
    }
  }

  /** No other step makes the queue longer than it was and than the limit: a step does so if and only
      if it accepts an entry while the queue is at the limit or beyond. */
  lemma ExceedsIffLogged(s: System, e: Event)
    requires Enabled(s, e)
    ensures |Step(s, e).pending| > Max(1000, |s.pending|) <==> e.Log? && |s.pending| >= 1000
  {
  }

  function Flood(message: string, n: nat): seq<Event> {
    if n == 0 then [] else [Log(message)] + Flood(message, n - 1)
  }

  /** So while the flusher waits, producers make the queue as long as they like. */
  lemma {:induction false} QueueIsUnbounded(s: System, message: string, n: nat)
    ensures Possible(s, Flood(message, n))
    ensures |Run(s, Flood(message, n)).pending| == |s.pending| + n
    decreases n
  {
    if n > 0 {
      var s', rest := AfterLog(s, message), Flood(message, n - 1);
      QueueIsUnbounded(s', message, n - 1);
      PlanCons(s, Log(message), rest);
    }
  }

  // ---------------------------------------------------------------------------------------
  // Nothing gets stuck
  // ---------------------------------------------------------------------------------------

  /** Steps the flusher still needs. */
  ghost function Rank(s: System): nat {
    if s.tasks == map[] then 0
    else
      var t :| t in s.tasks;
      match s.tasks[t]
      case Sleeping => if s.pending == [] then 2 else 3
      case Writing(_) => if s.pending == [] then 2 else 5
      case Failed(_) => 6
      case Finishing => if s.pending == [] then 1 else 4
  }

  /** What the flusher does next when the database works. */
  ghost function NextOf(s: System, t: nat): Event
    requires t in s.tasks
  {
    match s.tasks[t]
    case Sleeping => Take(t)
    case Writing(_) => Commit(t, true)
    case Failed(_) => Requeue(t)
    case Finishing => Finish(t)
  }

  /** What a flusher in phase `p` still brings into the database: a failed batch goes through the
      queue, as far as it fits. */
  ghost function Salvage(s: System, p: Phase): seq<Entry> {
    if p.Failed? then p.batch[..Kept(s, p.batch)] else BatchOf(p)
  }

  /** What a working database ends up with. */
  ghost function Savable(s: System): seq<Entry> {
    if s.tasks == map[] then s.persisted + s.pending
    else
      var t :| t in s.tasks;
      s.persisted + Salvage(s, s.tasks[t]) + s.pending
  }

  ghost predicate Fits(s: System, p: Phase) {
    p.Failed? ==> p.batch == [] || |p.batch| + |s.pending| <= MAX_PENDING
  }

  /** That is everything on its way, if and only if no failed batch is too large for the queue. */
  lemma AllIsSavable(s: System)
    requires SingleFlusher(s)
    ensures Savable(s) == Live(s) <==> forall t :: t in s.tasks ==> Fits(s, s.tasks[t])
  {
    if s.tasks == map[] {
      assert s.persisted + [] == s.persisted;
    } else {
      var t :| t in s.tasks;
      OnlyTask(s, t);
      SavableWith(s, t);
      if s.tasks[t].Failed? {
        var batch := s.tasks[t].batch;
        assert batch[..|batch|] == batch;
        assert |Live(s)| == |Savable(s)| + |batch| - Kept(s, batch);
      }
    }
  }

  lemma SavableWith(s: System, t: nat)
    requires SingleFlusher(s) && t in s.tasks
    ensures Savable(s) == s.persisted + Salvage(s, s.tasks[t]) + s.pending
  {
    OnlyTask(s, t);
  }

  lemma NextAdvances(s: System, t: nat)
    requires SingleFlusher(s) && NoLostWakeup(s) && t in s.tasks && s.hasFactory
    ensures Enabled(s, NextOf(s, t)) && IsFlushStep(NextOf(s, t))
    ensures var s' := Step(s, NextOf(s, t));
            s'.hasFactory && Rank(s') < Rank(s) && Savable(s') == Savable(s)
  {
    SavableWith(s, t);
    if s.tasks[t].Finishing? {
      FinishAdvances(s, t);
    } else {
      var s' := Step(s, NextOf(s, t));
      OnlyTask(s, t);
      MovesTo(s, t, s'.tasks[t], s');
      assert s'.tasks.Keys == {t};
      SavableWith(s', t);
      if s.tasks[t].Failed? {
        var batch := s.tasks[t].batch;
        SplitBatch(s.persisted, batch, Kept(s, batch), s.pending);
      }
    }
  }

  lemma FinishTasks(s: System, t: nat)
    requires SingleFlusher(s) && NoLostWakeup(s) && InPhase(s, t, Finishing)
    ensures var s' := AfterFinish(s, t);
            && SingleFlusher(s') && NoLostWakeup(s') && Live(s') == Live(s)
            && (if s.pending == [] then s'.tasks == map[] else s'.tasks == map[s.nextTask := Sleeping])
  {
    var s' := AfterFinish(s, t);
    OnlyTask(s, t);
    assert (s.tasks - {t}).Keys == {};
    if s.pending != [] {
      assert s'.tasks.Keys == {s.nextTask};
      OnlyTask(s', s.nextTask);
    }
    assert Live(s') == Live(s);
  }

  lemma FinishAdvances(s: System, t: nat)
    requires SingleFlusher(s) && NoLostWakeup(s) && InPhase(s, t, Finishing)
    ensures Rank(AfterFinish(s, t)) < Rank(s) && Savable(AfterFinish(s, t)) == Savable(s)
  {
    FinishTasks(s, t);
    OnlyTask(s, t);
    SavableWith(s, t);
    assert s.persisted + [] == s.persisted;
    if s.pending != [] {
      SavableWith(AfterFinish(s, t), s.nextTask);
    }
  }

  lemma PlanCons(s: System, e: Event, rest: seq<Event>)
    requires Enabled(s, e) && Possible(Step(s, e), rest)
    ensures Possible(s, [e] + rest) && Run(s, [e] + rest) == Run(Step(s, e), rest)
  {
    assert ([e] + rest)[1..] == rest;
  }

  /** With a working database, the flusher's own next steps, in any reachable state, save everything
      that is on its way, in order, and leave no task behind; only what does not fit when a failed batch
      is put back is lost. */
  lemma {:induction false} QueueDrains(s: System) returns (plan: seq<Event>)
    requires Inv(s) && s.hasFactory
    ensures Possible(s, plan) && |plan| <= Rank(s)
    ensures forall e :: e in plan ==> IsFlushStep(e)
    ensures var s' := Run(s, plan);
            s'.persisted == Savable(s) && s'.pending == [] && !s'.scheduled
    decreases Rank(s)
  {
    if !s.scheduled {
      plan := [];
      assert s.persisted + s.pending == s.persisted;
    } else {
      var e := NextStep(s);
      var rest := QueueDrains(Step(s, e));
      plan := [e] + rest;
      PlanCons(s, e, rest);
    }
  }

  /** A step of the flush task while commits succeed. */
  predicate IsFlushStep(e: Event) {
    e.Take? || (e.Commit? && e.ok) || e.Requeue? || e.Finish?
  }

  lemma TheTask(s: System) returns (t: nat)
    requires SingleFlusher(s) && s.scheduled
    ensures t in s.tasks
  {
    t :| s.tasks.Keys == {t};
    assert t in s.tasks.Keys;
  }

  lemma NextStep(s: System) returns (e: Event)
    requires Inv(s) && s.hasFactory && s.scheduled
    ensures Enabled(s, e) && IsFlushStep(e)
    ensures var s' := Step(s, e);
            Inv(s') && s'.hasFactory && Rank(s') < Rank(s) && Savable(s') == Savable(s)
  {
    var t := TheTask(s);
    e := NextOf(s, t);
    NextAdvances(s, t);
    StepKeeps(s, e);
  }

  // ---------------------------------------------------------------------------------------
  // The broadcast buffer
  // ---------------------------------------------------------------------------------------

  /** A negative count drops that many of the oldest entries instead. */
  lemma NegativeCountDrops(buffer: seq<Entry>, n: nat)
    requires n > 0
    ensures var recent := RecentLogs(buffer, 0 - n);
            |recent| == Max(0, |buffer| - n) && recent == buffer[|buffer| - |recent|..]
  {
  }

  /** Asking for `n` recent entries in a reachable state yields the last `n` accepted ones, as far
      as the buffer reaches, if and only if `n` is positive or nothing was logged: `n == 0` yields
      the whole buffer. */
  lemma RecentLogsAreRecent(s: System, n: nat)
    requires Inv(s)
    ensures RecentLogs(s.broadcast, n)
         == LastOf(s.accepted, if n <= 1000 then n else 1000)
       <==> n > 0 || s.accepted == []
  {
    var a, b := s.accepted, s.broadcast;
    if n == 0 {
      assert b[0..] == b && |LastOf(a, 0)| == 0;
    } else if n < |b| {
      assert b[|b| - n..] == a[|a| - n..];
    }
  }
}
