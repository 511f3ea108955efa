/**
 * The JDBC driver's reference-counting loading cache, as a state machine.
 *
 * Each cached key has a holder carrying a reference count, a count of
 * scheduled cleanups that may still run, and the cleanup scheduled last.
 * Releasing the last reference schedules a deferred cleanup; acquiring
 * again tries to cancel it; a cleanup that runs decrements the cleaner
 * count and evicts the key once both counts are zero.
 *
 * Threads, locks and the executor's timing are replaced by explicit events:
 * the caller's `acquire`, `release` and `close`, and the executor starting
 * and then running a scheduled task. Each event is atomic, as the source's
 * `synchronized` blocks make the holder updates.
 */
module ReferenceCountingCache {
  import opened Wrappers

  /** Holders and tasks are identified by their position in the state's append-only logs. */
  type HolderId = nat
  type TaskId = nat

  datatype Holder<V> = Holder(value: V, refcount: int, cleanerCount: int, currentCleanup: Option<TaskId>)

  /** How far the executor has got with a scheduled cleanup. */
  datatype Progress = Queued | Started | Done

  /** A deferred release, bound to the key and holder that scheduled it. */
  datatype Task<K> = Task(key: K, holder: HolderId, progress: Progress, cancelled: bool)

  /**
   * What a `cancel(false)` on a scheduled cleanup achieves.
   * `FutureTaskCancel` is what `ScheduledFuture.cancel(false)` does: it
   * succeeds for any task not yet finished or cancelled, including one
   * that has already started and will still run. `CancelOnlyQueued` is
   * what the holder's accounting assumes: a cancelled cleanup never runs.
   */
  datatype CancelSemantics = FutureTaskCancel | CancelOnlyQueued

  /** A failed check of the removal listener, which the backing cache logs and swallows. */
  datatype Violation<K> = UnreleasedOnClose(key: K) | NonZeroRefcount(key: K) | NonZeroCleanerCount(key: K)

  /** The `IllegalStateException` of a failed `checkState`. */
  datatype IllegalState = IllegalState(message: string)

  const ACQUIRE_CLOSED := "Can't acquire from closed cache."
  const RELEASE_CLOSED := "Can't release to closed cache."
  const NEGATIVE_IN_SET_CLEANUP := "Negative cleanerCount in setCleanup"
  const NEGATIVE_IN_RELEASE := "Negative cleanerCount in releaseForCleaning"
  const NONZERO_IN_SCHEDULE := "non-zero refcount in scheduleCleanup"

  /**
   * The cache: whether it is closed, the backing cache's key-to-holder
   * entries, every holder and every scheduled cleanup ever created, the
   * holders whose value went to the disposer, and the logged violations.
   */
  datatype Cache<K(==), V> = Cache(
    closed: bool,
    entries: map<K, HolderId>,
    holders: seq<Holder<V>>,
    tasks: seq<Task<K>>,
    disposed: set<HolderId>,
    violations: set<Violation<K>>)

  /** A new cache: open, with no entries, holders, cleanups, disposals or violations. */
  function Init<K(==), V>(): (c: Cache<K, V>)
    ensures WellFormed(c)
    ensures !c.closed && c.entries == map[] && |c.holders| == 0 && |c.tasks| == 0
    ensures c.disposed == {} && c.violations == {}
  {
    Cache(false, map[], [], [], {}, {})
  }

  /** Every identifier in the state names an existing holder or task, and a holder's cleanup is its own. */
  ghost predicate WellFormed<K, V>(c: Cache<K, V>)
  {
    && (forall k | k in c.entries :: c.entries[k] < |c.holders|)
    && (forall i | 0 <= i < |c.tasks| :: c.tasks[i].holder < |c.holders|)
    && (forall h | 0 <= h < |c.holders| ::
          c.holders[h].currentCleanup.Some? ==>
            && c.holders[h].currentCleanup.value < |c.tasks|
            && c.tasks[c.holders[h].currentCleanup.value].holder == h)
  }

  // ---------------------------------------------------------------------
  // Counting scheduled cleanups
  // ---------------------------------------------------------------------

  /** A scheduled cleanup that was neither cancelled nor run. */
  predicate Pending<K>(t: Task<K>)
  {
    !t.cancelled && t.progress != Done
  }

  function Contribution<K>(t: Task<K>, h: HolderId): nat
  {
    if Pending(t) && t.holder == h then 1 else 0
  }

  /** The number of pending cleanups of holder h. */
  function Outstanding<K>(tasks: seq<Task<K>>, h: HolderId): nat
  {
    if |tasks| == 0 then 0 else Outstanding(tasks[..|tasks| - 1], h) + Contribution(tasks[|tasks| - 1], h)
  }

  lemma OutstandingAppend<K>(tasks: seq<Task<K>>, t: Task<K>, h: HolderId)
    ensures Outstanding(tasks + [t], h) == Outstanding(tasks, h) + Contribution(t, h)
  {
    assert (tasks + [t])[..|tasks|] == tasks;
  }

  lemma {:induction false} OutstandingUpdate<K>(tasks: seq<Task<K>>, i: nat, t: Task<K>, h: HolderId)
    requires i < |tasks|
    ensures Outstanding(tasks[i := t], h) == Outstanding(tasks, h) - Contribution(tasks[i], h) + Contribution(t, h)
    decreases |tasks|
  {
    var n := |tasks| - 1;
    if i == n {
      assert tasks[i := t][..n] == tasks[..n];
    } else {
      assert tasks[i := t][..n] == tasks[..n][i := t];
      OutstandingUpdate(tasks[..n], i, t, h);
    }
  }

  /** A holder has no pending cleanups exactly when no task counts for it. */
  lemma {:induction false} OutstandingZero<K>(tasks: seq<Task<K>>, h: HolderId)
    ensures Outstanding(tasks, h) == 0 <==> forall i | 0 <= i < |tasks| :: Contribution(tasks[i], h) == 0
    decreases |tasks|
  {
    if |tasks| > 0 {
      var n := |tasks| - 1;
      OutstandingZero(tasks[..n], h);
      if Outstanding(tasks, h) == 0 {
        forall i | 0 <= i < |tasks|
          ensures Contribution(tasks[i], h) == 0
        {
          if i < n {
            assert tasks[i] == tasks[..n][i];
          }
        }
      } else if Contribution(tasks[n], h) == 0 {
        var j :| 0 <= j < n && Contribution(tasks[..n][j], h) != 0;
        assert tasks[j] == tasks[..n][j];
      }
    }
  }

  // ---------------------------------------------------------------------
  // Holder operations
  // ---------------------------------------------------------------------

  /** Whether `cancel(false)` on a scheduled cleanup succeeds, under the given semantics. */
  function CancelSucceeds<K>(sem: CancelSemantics, t: Task<K>): (ok: bool)
    ensures ok ==> !t.cancelled && t.progress != Done
    ensures sem == CancelOnlyQueued ==> (ok <==> !t.cancelled && t.progress == Queued)
    ensures sem == FutureTaskCancel ==> (ok <==> Pending(t))
  {
    match sem
    case FutureTaskCancel => !t.cancelled && t.progress != Done
    case CancelOnlyQueued => !t.cancelled && t.progress == Queued
  }

  /** Whether `setCleanup` on holder `h` cancels its current cleanup. */
  ghost predicate CancelsCurrent<K, V>(c: Cache<K, V>, h: HolderId, sem: CancelSemantics)
    requires WellFormed(c) && h < |c.holders|
  {
    c.holders[h].currentCleanup.Some? && CancelSucceeds(sem, c.tasks[c.holders[h].currentCleanup.value])
  }

  /** Holder `h`'s cleaner count once `setCleanup` has tried the cancel, before the check. */
  ghost function CountAfterCancel<K, V>(c: Cache<K, V>, h: HolderId, sem: CancelSemantics): int
    requires WellFormed(c) && h < |c.holders|
  {
    if CancelsCurrent(c, h, sem) then c.holders[h].cleanerCount - 1 else c.holders[h].cleanerCount
  }

  /** `tasks` is the task log of `c` with, at most, holder `h`'s current cleanup marked cancelled by `setCleanup`. */
  ghost predicate CancelApplied<K, V>(c: Cache<K, V>, h: HolderId, sem: CancelSemantics, tasks: seq<Task<K>>)
    requires WellFormed(c) && h < |c.holders|
  {
    && |tasks| == |c.tasks|
    && forall i | 0 <= i < |c.tasks| ::
         tasks[i] == if CancelsCurrent(c, h, sem) && i == c.holders[h].currentCleanup.value
                     then c.tasks[i].(cancelled := true) else c.tasks[i]
  }

  /** `r` agrees with `c` everywhere except on holder `h` and the task log. */
  ghost predicate OnlyHolderChanged<K, V>(c: Cache<K, V>, r: Cache<K, V>, h: HolderId)
  {
    && r.closed == c.closed && r.entries == c.entries
    && r.disposed == c.disposed && r.violations == c.violations
    && |r.holders| == |c.holders|
    && (forall g | 0 <= g < |c.holders| && g != h :: r.holders[g] == c.holders[g])
  }

  /**
   * `setCleanup`: tries to cancel the holder's current cleanup, counting one
   * cleaner fewer if that succeeds, checks the count is not negative, then
   * installs the new cleanup and counts it.
   */
  function SetCleanup<K(==), V>(c: Cache<K, V>, h: HolderId, cleanup: Option<TaskId>, sem: CancelSemantics): (r: Result<Cache<K, V>, IllegalState>)
    requires WellFormed(c) && h < |c.holders|
    ensures var prev := c.holders[h];
      var cancelled := prev.currentCleanup.Some? && CancelSucceeds(sem, c.tasks[prev.currentCleanup.value]);
      var count := if cancelled then prev.cleanerCount - 1 else prev.cleanerCount;
      && (r.Failure? <==> count < 0)
      && (r.Failure? ==> r.error == IllegalState(NEGATIVE_IN_SET_CLEANUP))
      && (r.Success? ==>
            && |r.value.holders| == |c.holders|
            && r.value.holders[h] == prev.(currentCleanup := cleanup, cleanerCount := if cleanup.Some? then count + 1 else count)
            && (forall g | 0 <= g < |c.holders| && g != h :: r.value.holders[g] == c.holders[g])
            && |r.value.tasks| == |c.tasks|
            && (forall i | 0 <= i < |c.tasks| ::
                  r.value.tasks[i] == if cancelled && i == prev.currentCleanup.value then c.tasks[i].(cancelled := true) else c.tasks[i])
            && r.value.closed == c.closed && r.value.entries == c.entries
            && r.value.disposed == c.disposed && r.value.violations == c.violations)
    ensures r.Success? && (cleanup.Some? ==> cleanup.value < |c.tasks| && c.tasks[cleanup.value].holder == h)
      ==> WellFormed(r.value)
  {
    var prev := c.holders[h];
    var cancelled := prev.currentCleanup.Some? && CancelSucceeds(sem, c.tasks[prev.currentCleanup.value]);
    var tasks := if cancelled then c.tasks[prev.currentCleanup.value := c.tasks[prev.currentCleanup.value].(cancelled := true)] else c.tasks;
    var count := if cancelled then prev.cleanerCount - 1 else prev.cleanerCount;
    if count < 0 then
      Failure(IllegalState(NEGATIVE_IN_SET_CLEANUP))
    else
      var updated := prev.(currentCleanup := cleanup, cleanerCount := if cleanup.Some? then count + 1 else count);
      Success(c.(tasks := tasks, holders := c.holders[h := updated]))
  }

  /** `reference`: drops the pending cleanup, then counts one more reference. */
  function Reference<K(==), V>(c: Cache<K, V>, h: HolderId, sem: CancelSemantics): (r: Result<Cache<K, V>, IllegalState>)
    requires WellFormed(c) && h < |c.holders|
    ensures r.Failure? <==> CountAfterCancel(c, h, sem) < 0
    ensures r.Failure? ==> r.error == IllegalState(NEGATIVE_IN_SET_CLEANUP)
    ensures r.Success? ==>
      && OnlyHolderChanged(c, r.value, h)
      && CancelApplied(c, h, sem, r.value.tasks)
      && r.value.holders[h] == c.holders[h].(refcount := c.holders[h].refcount + 1,
                                             cleanerCount := CountAfterCancel(c, h, sem),
                                             currentCleanup := None)
    ensures r.Success? ==> WellFormed(r.value)
  {
    match SetCleanup(c, h, None, sem)
    case Failure(e) => Failure(e)
    case Success(c1) =>
      var hd := c1.holders[h];
      Success(c1.(holders := c1.holders[h := hd.(refcount := hd.refcount + 1)]))
  }

  /**
   * `scheduleCleanup`: legal only with no references left; queues a
   * deferred release of the key and installs it as the current cleanup.
   */
  function ScheduleCleanup<K(==), V>(c: Cache<K, V>, h: HolderId, key: K, sem: CancelSemantics): (r: Result<Cache<K, V>, IllegalState>)
    requires WellFormed(c) && h < |c.holders|
    ensures c.holders[h].refcount != 0 ==> r == Failure(IllegalState(NONZERO_IN_SCHEDULE))
    ensures c.holders[h].refcount == 0 ==>
      && (r.Failure? <==> CountAfterCancel(c, h, sem) < 0)
      && (r.Failure? ==> r.error == IllegalState(NEGATIVE_IN_SET_CLEANUP))
    ensures r.Success? ==>
      && OnlyHolderChanged(c, r.value, h)
      && |r.value.tasks| == |c.tasks| + 1
      && CancelApplied(c, h, sem, r.value.tasks[..|c.tasks|])
      && r.value.tasks[|c.tasks|] == Task(key, h, Queued, false)
      && r.value.holders[h] == c.holders[h].(cleanerCount := CountAfterCancel(c, h, sem) + 1,
                                             currentCleanup := Some(|c.tasks|))
    ensures r.Success? ==> WellFormed(r.value)
  {
    if c.holders[h].refcount != 0 then
      Failure(IllegalState(NONZERO_IN_SCHEDULE))
    else
      var c1 := c.(tasks := c.tasks + [Task(key, h, Queued, false)]);
      SetCleanup(c1, h, Some(|c.tasks|), sem)
  }

  /** The removal listener's checks: a violation, or None when the value may go to the disposer. */
  function RemovalCheck<K, V>(closed: bool, key: K, holder: Holder<V>): (v: Option<Violation<K>>)
    ensures closed ==> (v.None? <==> holder.refcount == 0)
    ensures !closed ==> (v.None? <==> holder.refcount == 0 && holder.cleanerCount == 0)
    ensures v.Some? ==> v.value.key == key && (v.value.UnreleasedOnClose? <==> closed)
  {
    if closed then
      if holder.refcount != 0 then Some(UnreleasedOnClose(key)) else None
    else if holder.refcount != 0 then Some(NonZeroRefcount(key))
    else if holder.cleanerCount != 0 then Some(NonZeroCleanerCount(key))
    else None
  }

  /** `invalidate(key)`: removes the entry, if any, and runs the removal listener on its holder. */
  function Invalidate<K(==), V>(c: Cache<K, V>, key: K): (r: Cache<K, V>)
    requires WellFormed(c)
    ensures WellFormed(r)
    ensures r.entries == c.entries - {key}
    ensures r.closed == c.closed && r.holders == c.holders && r.tasks == c.tasks
    ensures key !in c.entries ==> r.disposed == c.disposed && r.violations == c.violations
    ensures key in c.entries ==>
      var v := RemovalCheck(c.closed, key, c.holders[c.entries[key]]);
      && r.disposed == (if v.None? then c.disposed + {c.entries[key]} else c.disposed)
      && r.violations == (if v.Some? then c.violations + {v.value} else c.violations)
  {
    if key !in c.entries then c
    else
      var h := c.entries[key];
      match RemovalCheck(c.closed, key, c.holders[h])
      case None => c.(entries := c.entries - {key}, disposed := c.disposed + {h})
      case Some(v) => c.(entries := c.entries - {key}, violations := c.violations + {v})
  }

  // ---------------------------------------------------------------------
  // Cache operations and executor events
  // ---------------------------------------------------------------------

  /**
   * `acquire`: refuses a closed cache; otherwise loads a holder for an
   * absent key (`loaded` stands for the loader's result), references it and
   * returns its value.
   */
  function Acquire<K(==), V>(c: Cache<K, V>, key: K, loaded: V, sem: CancelSemantics): (r: Result<(Cache<K, V>, V), IllegalState>)
    requires WellFormed(c)
    ensures c.closed ==> r == Failure(IllegalState(ACQUIRE_CLOSED))
    ensures !c.closed ==> (r.Failure? <==> key in c.entries && CountAfterCancel(c, c.entries[key], sem) < 0)
    ensures !c.closed && r.Failure? ==> r.error == IllegalState(NEGATIVE_IN_SET_CLEANUP)
    ensures r.Success? ==>
      var (c', v) := r.value;
      && !c.closed
      && key in c'.entries
      && c'.entries == (if key in c.entries then c.entries else c.entries[key := |c.holders|])
      && |c'.holders| == (if key in c.entries then |c.holders| else |c.holders| + 1)
      && c'.entries[key] < |c'.holders|
      && c'.holders[c'.entries[key]].value == v
      && (key in c.entries ==> v == c.holders[c.entries[key]].value)
      && (key !in c.entries ==> v == loaded && c'.holders[c'.entries[key]].refcount == 1)
    ensures r.Success? ==> WellFormed(r.value.0)
    ensures r.Success? ==>
      var (c', v) := r.value;
      var h := c'.entries[key];
      && c'.closed == c.closed && c'.disposed == c.disposed && c'.violations == c.violations
      && (forall g | 0 <= g < |c.holders| && g != h :: c'.holders[g] == c.holders[g])
      && c'.holders[h].refcount == (if key in c.entries then c.holders[h].refcount else 0) + 1
      && c'.holders[h].currentCleanup == None
      && (key in c.entries ==>
            && c'.holders[h].cleanerCount == CountAfterCancel(c, h, sem)
            && CancelApplied(c, h, sem, c'.tasks))
      && (key !in c.entries ==> c'.holders[h] == Holder(loaded, 1, 0, None) && c'.tasks == c.tasks)
  {
    if c.closed then
      Failure(IllegalState(ACQUIRE_CLOSED))
    else
      var c1 := if key in c.entries then c
        else c.(holders := c.holders + [Holder(loaded, 0, 0, None)], entries := c.entries[key := |c.holders|]);
      var h := c1.entries[key];
      match Reference(c1, h, sem)
      case Failure(e) => Failure(e)
      case Success(c2) => Success((c2, c2.holders[h].value))
  }

  /**
   * `release`: refuses a closed cache; ignores a key without a holder;
   * otherwise drops one reference and, when none are left, schedules the
   * deferred release.
   */
  function Release<K(==), V>(c: Cache<K, V>, key: K, sem: CancelSemantics): (r: Result<Cache<K, V>, IllegalState>)
    requires WellFormed(c)
    ensures c.closed ==> r == Failure(IllegalState(RELEASE_CLOSED))
    ensures !c.closed && key !in c.entries ==> r == Success(c)
    ensures !c.closed ==>
      (r.Failure? <==> key in c.entries && c.holders[c.entries[key]].refcount == 1
                       && CountAfterCancel(c, c.entries[key], sem) < 0)
    ensures !c.closed && r.Failure? ==> r.error == IllegalState(NEGATIVE_IN_SET_CLEANUP)
    ensures r.Success? && key in c.entries ==>
      var h := c.entries[key];
      && OnlyHolderChanged(c, r.value, h)
      && r.value.holders[h].refcount == c.holders[h].refcount - 1
      && r.value.holders[h].value == c.holders[h].value
      && (c.holders[h].refcount != 1 ==>
            && r.value.holders[h] == c.holders[h].(refcount := c.holders[h].refcount - 1)
            && r.value.tasks == c.tasks)
      && (c.holders[h].refcount == 1 ==>
            && |r.value.tasks| == |c.tasks| + 1
            && CancelApplied(c, h, sem, r.value.tasks[..|c.tasks|])
            && r.value.tasks[|c.tasks|] == Task(key, h, Queued, false)
            && r.value.holders[h].cleanerCount == CountAfterCancel(c, h, sem) + 1
            && r.value.holders[h].currentCleanup == Some(|c.tasks|))
    ensures r.Success? ==> WellFormed(r.value)
  {
    if c.closed then
      Failure(IllegalState(RELEASE_CLOSED))
    else if key !in c.entries then
      Success(c)
    else
      var h := c.entries[key];
      var hd := c.holders[h];
      var c1 := c.(holders := c.holders[h := hd.(refcount := hd.refcount - 1)]);
      if hd.refcount - 1 == 0 then ScheduleCleanup(c1, h, key, sem) else Success(c1)
  }

  /**
   * `close`: the first call marks the cache closed, stops the executor
   * (queued cleanups never start) and invalidates every entry; later calls
   * do nothing.
   */
  function Close<K(==), V>(c: Cache<K, V>): (r: Cache<K, V>)
    requires WellFormed(c)
    ensures WellFormed(r)
    ensures r.closed && r.holders == c.holders && r.tasks == c.tasks
    ensures c.closed ==> r == c
    ensures !c.closed ==>
      && r.entries == map[]
      && r.disposed == c.disposed + (set k | k in c.entries && c.holders[c.entries[k]].refcount == 0 :: c.entries[k])
      && r.violations == c.violations + (set k | k in c.entries && c.holders[c.entries[k]].refcount != 0 :: UnreleasedOnClose(k))
  {
    if c.closed then c
    else
      c.(closed := true,
         entries := map[],
         disposed := c.disposed + (set k | k in c.entries && c.holders[c.entries[k]].refcount == 0 :: c.entries[k]),
         violations := c.violations + (set k | k in c.entries && c.holders[c.entries[k]].refcount != 0 :: UnreleasedOnClose(k)))
  }

  /** The executor starts a queued, uncancelled cleanup; a stopped executor starts nothing. */
  function StartTask<K(==), V>(c: Cache<K, V>, t: TaskId): (r: Cache<K, V>)
    requires WellFormed(c)
    ensures WellFormed(r)
    ensures |r.tasks| == |c.tasks|
    ensures r.closed == c.closed && r.entries == c.entries && r.holders == c.holders
    ensures r.disposed == c.disposed && r.violations == c.violations
    ensures forall i | 0 <= i < |c.tasks| && i != t :: r.tasks[i] == c.tasks[i]
    ensures t < |c.tasks| ==>
      r.tasks[t] == if !c.closed && c.tasks[t].progress == Queued && !c.tasks[t].cancelled
                    then c.tasks[t].(progress := Started) else c.tasks[t]
  {
    if !c.closed && t < |c.tasks| && c.tasks[t].progress == Queued && !c.tasks[t].cancelled then
      c.(tasks := c.tasks[t := c.tasks[t].(progress := Started)])
    else c
  }

  /**
   * A started cleanup runs its body: `releaseForCleaning` counts one cleaner
   * fewer and checks the count, then the key is invalidated if neither
   * references nor cleaners remain. It runs whether or not it was cancelled
   * after starting.
   */
  function RunTask<K(==), V>(c: Cache<K, V>, t: TaskId): (r: Result<Cache<K, V>, IllegalState>)
    requires WellFormed(c)
    ensures !(t < |c.tasks| && c.tasks[t].progress == Started) ==> r == Success(c)
    ensures t < |c.tasks| && c.tasks[t].progress == Started ==>
      var task := c.tasks[t];
      var count := c.holders[task.holder].cleanerCount - 1;
      && (r.Failure? <==> count < 0)
      && (r.Failure? ==> r.error == IllegalState(NEGATIVE_IN_RELEASE))
      && (r.Success? ==>
            && var evict := count == 0 && c.holders[task.holder].refcount == 0;
            && r.value.tasks == c.tasks[t := task.(progress := Done)]
            && r.value.closed == c.closed
            && |r.value.holders| == |c.holders|
            && r.value.holders[task.holder] == c.holders[task.holder].(cleanerCount := count)
            && (forall g | 0 <= g < |c.holders| && g != task.holder :: r.value.holders[g] == c.holders[g])
            && r.value.entries == (if evict then c.entries - {task.key} else c.entries)
            && (!evict || task.key !in c.entries ==>
                  r.value.disposed == c.disposed && r.value.violations == c.violations)
            && (evict && task.key in c.entries ==>
                  var g := c.entries[task.key];
                  var v := RemovalCheck(c.closed, task.key, r.value.holders[g]);
                  && r.value.disposed == (if v.None? then c.disposed + {g} else c.disposed)
                  && r.value.violations == (if v.Some? then c.violations + {v.value} else c.violations)))
    ensures r.Success? ==> WellFormed(r.value)
  {
    if !(t < |c.tasks| && c.tasks[t].progress == Started) then
      Success(c)
    else
      var task := c.tasks[t];
      var hd := c.holders[task.holder];
      var count := hd.cleanerCount - 1;
      if count < 0 then
        Failure(IllegalState(NEGATIVE_IN_RELEASE))
      else
        var c1 := c.(tasks := c.tasks[t := task.(progress := Done)],
                     holders := c.holders[task.holder := hd.(cleanerCount := count)]);
        if count == 0 && hd.refcount == 0 then Success(Invalidate(c1, task.key)) else Success(c1)
  }

  /** What can happen next: a caller's operation, or the executor moving a cleanup on. */
  datatype Event<K, V> =
    | AcquireEvent(key: K, loaded: V)
    | ReleaseEvent(key: K)
    | CloseEvent
    | StartEvent(task: TaskId)
    | RunEvent(task: TaskId)

  /** One event; a failed `checkState` surfaces as the failure. */
  function Step<K(==), V>(c: Cache<K, V>, e: Event<K, V>, sem: CancelSemantics): (r: Result<Cache<K, V>, IllegalState>)
    requires WellFormed(c)
    ensures r.Success? ==> WellFormed(r.value)
    ensures e.CloseEvent? || e.StartEvent? ==> r.Success?
  {
    match e
    case AcquireEvent(key, loaded) =>
      (match Acquire(c, key, loaded, sem)
       case Success((c', _)) => Success(c')
       case Failure(err) => Failure(err))
    case ReleaseEvent(key) => Release(c, key, sem)
    case CloseEvent => Success(Close(c))
    case StartEvent(t) => Success(StartTask(c, t))
    case RunEvent(t) => RunTask(c, t)
  }

  /** The refusals of a closed cache, thrown before anything changes. */
  predicate ClosedRefusal(e: IllegalState)
  {
    e.message == ACQUIRE_CLOSED || e.message == RELEASE_CLOSED
  }

  /**
   * Replays events from a state. A caller refused by a closed cache carries
   * on with the state unchanged; any other exception stops the replay,
   * since the holder it was thrown from is left half updated.
   */
  function Replay<K(==), V>(c: Cache<K, V>, events: seq<Event<K, V>>, sem: CancelSemantics): (r: Result<Cache<K, V>, IllegalState>)
    requires WellFormed(c)
    ensures r.Success? ==> WellFormed(r.value)
    ensures r.Failure? ==> !ClosedRefusal(r.error)
    decreases |events|
  {
    if |events| == 0 then Success(c)
    else
      match Step(c, events[0], sem)
      case Failure(e) => if ClosedRefusal(e) then Replay(c, events[1..], sem) else Failure(e)
      case Success(c1) => Replay(c1, events[1..], sem)
  }
}
