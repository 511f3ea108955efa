/**
 * The holder accounting of the reference-counting cache is exact when a
 * successful cancel means the cleanup will not run: every holder's cleaner
 * count equals its scheduled cleanups that were neither cancelled nor run,
 * so neither `checkState` on the count fails, and a deferred release only
 * ever evicts a holder that passes the removal listener's checks.
 */
module CacheInvariant {
  import opened Wrappers
  import opened ReferenceCountingCache

  /** Every holder's cleaner count is the number of its pending cleanups. */
  ghost predicate CountsExact<K, V>(c: Cache<K, V>)
  {
    forall h | 0 <= h < |c.holders| :: c.holders[h].cleanerCount == Outstanding(c.tasks, h)
  }

  /** While the cache is open, a pending cleanup's key still maps to the holder that scheduled it. */
  ghost predicate PendingTasksOwnTheirKeys<K, V>(c: Cache<K, V>)
  {
    !c.closed ==>
      forall i | 0 <= i < |c.tasks| && Pending(c.tasks[i]) ::
        c.tasks[i].key in c.entries && c.entries[c.tasks[i].key] == c.tasks[i].holder
  }

  ghost predicate Invariant<K, V>(c: Cache<K, V>)
  {
    && WellFormed(c)
    && CountsExact(c)
    && (forall i | 0 <= i < |c.tasks| :: c.tasks[i].progress == Started ==> !c.tasks[i].cancelled)
    && PendingTasksOwnTheirKeys(c)
    && (c.closed ==> c.entries == map[])
    && (forall v | v in c.violations :: v.UnreleasedOnClose?)
  }

  lemma InitInvariant<K, V>()
    ensures Invariant(Init<K, V>())
  {
  }

  /** Changing one task leaves the counts of every holder it does not belong to, before or after, alone. */
  lemma UpdateOtherHolders<K>(tasks: seq<Task<K>>, i: nat, t: Task<K>, h: HolderId)
    requires i < |tasks| && tasks[i].holder != h && t.holder != h
    ensures Outstanding(tasks[i := t], h) == Outstanding(tasks, h)
  {
    OutstandingUpdate(tasks, i, t, h);
  }

  /** Under the intended cancel, `reference` on an open cache never fails and keeps the invariant. */
  lemma ReferenceKeepsInvariant<K, V>(c: Cache<K, V>, h: HolderId)
    requires Invariant(c) && h < |c.holders| && !c.closed
    ensures Reference(c, h, CancelOnlyQueued).Success?
    ensures Invariant(Reference(c, h, CancelOnlyQueued).value)
  {
    var hd := c.holders[h];
    var tasks := c.tasks;
    if hd.currentCleanup.Some? && CancelSucceeds(CancelOnlyQueued, c.tasks[hd.currentCleanup.value]) {
      var t := hd.currentCleanup.value;
      var t' := c.tasks[t].(cancelled := true);
      tasks := c.tasks[t := t'];
      OutstandingUpdate(c.tasks, t, t', h);
      forall g | 0 <= g < |c.holders| && g != h
        ensures Outstanding(tasks, g) == Outstanding(c.tasks, g)
      {
        UpdateOtherHolders(c.tasks, t, t', g);
      }
    }
    var r := Reference(c, h, CancelOnlyQueued).value;
    assert r.tasks == tasks;
    assert CountsExact(r);
  }

  lemma AcquireKeepsInvariant<K, V>(c: Cache<K, V>, key: K, loaded: V)
    requires Invariant(c)
    ensures Acquire(c, key, loaded, CancelOnlyQueued).Success? <==> !c.closed
    ensures Acquire(c, key, loaded, CancelOnlyQueued).Success? ==> Invariant(Acquire(c, key, loaded, CancelOnlyQueued).value.0)
  {
    if !c.closed {
      var c1 := if key in c.entries then c
        else c.(holders := c.holders + [Holder(loaded, 0, 0, None)], entries := c.entries[key := |c.holders|]);
      if key !in c.entries {
        var h := |c.holders|;
        OutstandingZero(c.tasks, h);
        assert Outstanding(c.tasks, h) == 0;
        assert CountsExact(c1);
      }
      ReferenceKeepsInvariant(c1, c1.entries[key]);
    }
  }

  /** A cleanup that `setCleanup` cancels is pending, so it is counted and the count stays non-negative. */
  lemma CancelLeavesCountNonNegative<K, V>(c: Cache<K, V>, h: HolderId)
    requires Invariant(c) && h < |c.holders|
    ensures CountAfterCancel(c, h, CancelOnlyQueued) >= 0
  {
    if CancelsCurrent(c, h, CancelOnlyQueued) {
      var t := c.holders[h].currentCleanup.value;
      OutstandingZero(c.tasks, h);
      assert Contribution(c.tasks[t], h) == 1;
    }
  }

  /** Releasing the last reference: the one cleanup it schedules is counted exactly once. */
  lemma ReleaseLastReferenceCounts<K, V>(c: Cache<K, V>, key: K)
    requires Invariant(c) && !c.closed && key in c.entries && c.holders[c.entries[key]].refcount == 1
    ensures Release(c, key, CancelOnlyQueued).Success?
    ensures CountsExact(Release(c, key, CancelOnlyQueued).value)
  {
    var h := c.entries[key];
    CancelLeavesCountNonNegative(c, h);
    var r := Release(c, key, CancelOnlyQueued).value;
    var n := |c.tasks|;
    var queued := Task(key, h, Queued, false);
    var prefix := r.tasks[..n];
    assert r.tasks == prefix + [queued];
    if CancelsCurrent(c, h, CancelOnlyQueued) {
      var t := c.holders[h].currentCleanup.value;
      var t' := c.tasks[t].(cancelled := true);
      assert prefix == c.tasks[t := t'];
      forall g | 0 <= g < |c.holders|
        ensures Outstanding(prefix, g) == Outstanding(c.tasks, g) - (if g == h then 1 else 0)
      {
        OutstandingUpdate(c.tasks, t, t', g);
      }
    } else {
      assert prefix == c.tasks;
    }
    forall g | 0 <= g < |c.holders|
      ensures r.holders[g].cleanerCount == Outstanding(r.tasks, g)
    {
      OutstandingAppend(prefix, queued, g);
    }
  }

  /** Releasing the last reference: every pending cleanup, the new one included, still owns its key. */
  lemma ReleaseLastReferenceOwnership<K, V>(c: Cache<K, V>, key: K)
    requires Invariant(c) && !c.closed && key in c.entries && c.holders[c.entries[key]].refcount == 1
    ensures Release(c, key, CancelOnlyQueued).Success?
    ensures PendingTasksOwnTheirKeys(Release(c, key, CancelOnlyQueued).value)
  {
    CancelLeavesCountNonNegative(c, c.entries[key]);
    var r := Release(c, key, CancelOnlyQueued).value;
    forall i | 0 <= i < |r.tasks| && Pending(r.tasks[i])
      ensures r.tasks[i].key in r.entries && r.entries[r.tasks[i].key] == r.tasks[i].holder
    {
      if i < |c.tasks| {
        assert r.tasks[..|c.tasks|][i] == r.tasks[i];
        assert Pending(c.tasks[i]);
      }
    }
  }

  /** Under the intended cancel, releasing the last reference schedules one cleanup and keeps the invariant. */
  lemma ReleaseLastReferenceKeepsInvariant<K, V>(c: Cache<K, V>, key: K)
    requires Invariant(c) && !c.closed && key in c.entries && c.holders[c.entries[key]].refcount == 1
    ensures Release(c, key, CancelOnlyQueued).Success?
    ensures Invariant(Release(c, key, CancelOnlyQueued).value)
  {
    ReleaseLastReferenceCounts(c, key);
    ReleaseLastReferenceOwnership(c, key);
    var r := Release(c, key, CancelOnlyQueued).value;
    forall i | 0 <= i < |r.tasks| && r.tasks[i].progress == Started
      ensures !r.tasks[i].cancelled
    {
      assert r.tasks[..|c.tasks|][i] == r.tasks[i];
    }
  }

  lemma ReleaseKeepsInvariant<K, V>(c: Cache<K, V>, key: K)
    requires Invariant(c)
    ensures Release(c, key, CancelOnlyQueued).Success? <==> !c.closed
    ensures Release(c, key, CancelOnlyQueued).Success? ==> Invariant(Release(c, key, CancelOnlyQueued).value)
  {
    if !c.closed && key in c.entries {
      var h := c.entries[key];
      var hd := c.holders[h];
      if hd.refcount == 1 {
        ReleaseLastReferenceKeepsInvariant(c, key);
      } else {
        var c1 := c.(holders := c.holders[h := hd.(refcount := hd.refcount - 1)]);
        assert Invariant(c1);
        assert Release(c, key, CancelOnlyQueued).value == c1;
      }
    }
  }

  lemma CloseKeepsInvariant<K, V>(c: Cache<K, V>)
    requires Invariant(c)
    ensures Invariant(Close(c))
  {
  }

  lemma StartTaskKeepsInvariant<K, V>(c: Cache<K, V>, t: TaskId)
    requires Invariant(c)
    ensures Invariant(StartTask(c, t))
  {
    if !c.closed && t < |c.tasks| && c.tasks[t].progress == Queued && !c.tasks[t].cancelled {
      var t' := c.tasks[t].(progress := Started);
      forall g | 0 <= g < |c.holders|
        ensures Outstanding(c.tasks[t := t'], g) == Outstanding(c.tasks, g)
      {
        OutstandingUpdate(c.tasks, t, t', g);
      }
    }
  }

  /**
   * A deferred release never finds the count negative, and when it evicts,
   * the holder it evicts is its own and has neither references nor cleaners.
   */
  /** A deferred release that leaves neither references nor cleaners evicts a key no pending cleanup needs. */
  lemma RunTaskEvictionKeepsOwnership<K, V>(c: Cache<K, V>, t: TaskId)
    requires Invariant(c) && !c.closed && t < |c.tasks| && c.tasks[t].progress == Started
    requires c.holders[c.tasks[t].holder].cleanerCount == 1 && c.holders[c.tasks[t].holder].refcount == 0
    ensures RunTask(c, t).Success?
    ensures PendingTasksOwnTheirKeys(RunTask(c, t).value)
  {
    var task := c.tasks[t];
    var h := task.holder;
    var done := task.(progress := Done);
    OutstandingUpdate(c.tasks, t, done, h);
    OutstandingZero(c.tasks[t := done], h);
    var r := RunTask(c, t).value;
    forall i | 0 <= i < |r.tasks| && Pending(r.tasks[i])
      ensures r.tasks[i].key in r.entries && r.entries[r.tasks[i].key] == r.tasks[i].holder
    {
      assert Contribution(c.tasks[t := done][i], h) == 0;
    }
  }

  lemma RunTaskKeepsInvariant<K, V>(c: Cache<K, V>, t: TaskId)
    requires Invariant(c)
    ensures RunTask(c, t).Success?
    ensures Invariant(RunTask(c, t).value)
    ensures t < |c.tasks| && c.tasks[t].progress == Started && c.tasks[t].key in c.entries && !c.closed
      ==> c.entries[c.tasks[t].key] == c.tasks[t].holder
  {
    if t < |c.tasks| && c.tasks[t].progress == Started {
      var task := c.tasks[t];
      var h := task.holder;
      var done := task.(progress := Done);
      OutstandingUpdate(c.tasks, t, done, h);
      forall g | 0 <= g < |c.holders| && g != h
        ensures Outstanding(c.tasks[t := done], g) == Outstanding(c.tasks, g)
      {
        UpdateOtherHolders(c.tasks, t, done, g);
      }
      var hd := c.holders[h];
      if hd.cleanerCount == 1 && hd.refcount == 0 && !c.closed {
        RunTaskEvictionKeepsOwnership(c, t);
      }
      var r := RunTask(c, t).value;
      assert CountsExact(r);
    }
  }

  /** From an invariant state, the only exceptions are a closed cache refusing `acquire` or `release`. */
  lemma StepKeepsInvariant<K, V>(c: Cache<K, V>, e: Event<K, V>)
    requires Invariant(c)
    ensures Step(c, e, CancelOnlyQueued).Failure? <==> c.closed && (e.AcquireEvent? || e.ReleaseEvent?)
    ensures Step(c, e, CancelOnlyQueued).Failure? ==>
      Step(c, e, CancelOnlyQueued).error in {IllegalState(ACQUIRE_CLOSED), IllegalState(RELEASE_CLOSED)}
    ensures Step(c, e, CancelOnlyQueued).Success? ==> Invariant(Step(c, e, CancelOnlyQueued).value)
  {
    match e
    case AcquireEvent(key, loaded) => AcquireKeepsInvariant(c, key, loaded);
    case ReleaseEvent(key) => ReleaseKeepsInvariant(c, key);
    case CloseEvent => CloseKeepsInvariant(c);
    case StartEvent(t) => StartTaskKeepsInvariant(c, t);
    case RunEvent(t) => RunTaskKeepsInvariant(c, t);
  }

  /**
   * Every run of the cache from empty, under any interleaving of callers and
   * executor, keeps the accounting exact and never throws from inside a
   * holder; the removal listener only ever complains about keys still
   * referenced when the cache is closed.
   */
  lemma {:induction false} ReplayKeepsInvariant<K, V>(c: Cache<K, V>, events: seq<Event<K, V>>)
    requires Invariant(c)
    ensures Replay(c, events, CancelOnlyQueued).Success?
    ensures Invariant(Replay(c, events, CancelOnlyQueued).value)
    decreases |events|
  {
    if |events| > 0 {
      StepKeepsInvariant(c, events[0]);
      match Step(c, events[0], CancelOnlyQueued)
      case Success(c1) => ReplayKeepsInvariant(c1, events[1..]);
      case Failure(_) => ReplayKeepsInvariant(c, events[1..]);
    }
  }

  lemma ReachableStatesAreSafe<K, V>(events: seq<Event<K, V>>)
    ensures Replay(Init<K, V>(), events, CancelOnlyQueued).Success?
    ensures var c := Replay(Init<K, V>(), events, CancelOnlyQueued).value;
      && CountsExact(c)
      && (forall h | 0 <= h < |c.holders| :: c.holders[h].cleanerCount >= 0)
      && (forall v | v in c.violations :: v.UnreleasedOnClose?)
  {
    ReplayKeepsInvariant(Init<K, V>(), events);
  }

  /** Acquire, release, the cleanup starts, acquire again, the cleanup runs. */
  function RaceTrace(): seq<Event<string, string>>
  {
    [AcquireEvent("k", "v"), ReleaseEvent("k"), StartEvent(0), AcquireEvent("k", "v"), RunEvent(0)]
  }

  /** The states the trace passes through; the fourth and fifth depend on the cancel semantics. */
  function RaceState(n: nat, sem: CancelSemantics): Cache<string, string>
  {
    var entries := map["k" := 0];
    if n == 1 then Cache(false, entries, [Holder("v", 1, 0, None)], [], {}, {})
    else if n == 2 then Cache(false, entries, [Holder("v", 0, 1, Some(0))], [Task("k", 0, Queued, false)], {}, {})
    else if n == 3 then Cache(false, entries, [Holder("v", 0, 1, Some(0))], [Task("k", 0, Started, false)], {}, {})
    else if n == 4 && sem == FutureTaskCancel then
      Cache(false, entries, [Holder("v", 1, 0, None)], [Task("k", 0, Started, true)], {}, {})
    else if n == 4 then Cache(false, entries, [Holder("v", 1, 1, None)], [Task("k", 0, Started, false)], {}, {})
    else Cache(false, entries, [Holder("v", 1, 0, None)], [Task("k", 0, Done, false)], {}, {})
  }

  lemma RaceStep1(sem: CancelSemantics)
    ensures Step(Init<string, string>(), RaceTrace()[0], sem) == Success(RaceState(1, sem))
  {
    var c0: Cache<string, string> := Init();
    assert RaceTrace()[0] == AcquireEvent("k", "v");
    var r := Acquire(c0, "k", "v", sem);
    assert r.Success?;
    var c1 := r.value.0;
    assert c1.entries == map["k" := 0];
    assert c1.holders == [Holder("v", 1, 0, None)];
  }

  lemma RaceStep2(sem: CancelSemantics)
    ensures Step(RaceState(1, sem), RaceTrace()[1], sem) == Success(RaceState(2, sem))
  {
    var r := Step(RaceState(1, sem), RaceTrace()[1], sem).value;
    assert r.tasks == [Task("k", 0, Queued, false)];
    assert r.holders == [Holder("v", 0, 1, Some(0))];
  }

  lemma RaceStep3(sem: CancelSemantics)
    ensures Step(RaceState(2, sem), RaceTrace()[2], sem) == Success(RaceState(3, sem))
  {
    var r := Step(RaceState(2, sem), RaceTrace()[2], sem).value;
    assert r.tasks == [Task("k", 0, Started, false)];
  }

  lemma RaceStep4(sem: CancelSemantics)
    ensures Step(RaceState(3, sem), RaceTrace()[3], sem) == Success(RaceState(4, sem))
  {
    var c := RaceState(3, sem);
    assert RaceTrace()[3] == AcquireEvent("k", "v");
    assert CancelsCurrent(c, 0, sem) <==> sem == FutureTaskCancel;
    var r := Step(c, RaceTrace()[3], sem).value;
    if sem == FutureTaskCancel {
      assert r.tasks == [Task("k", 0, Started, true)];
      assert r.holders == [Holder("v", 1, 0, None)];
    } else {
      assert r.tasks == [Task("k", 0, Started, false)];
      assert r.holders == [Holder("v", 1, 1, None)];
    }
  }

  lemma RaceStep5()
    ensures Step(RaceState(4, FutureTaskCancel), RaceTrace()[4], FutureTaskCancel) == Failure(IllegalState(NEGATIVE_IN_RELEASE))
    ensures Step(RaceState(4, CancelOnlyQueued), RaceTrace()[4], CancelOnlyQueued) == Success(RaceState(5, CancelOnlyQueued))
  {
    var r := Step(RaceState(4, CancelOnlyQueued), RaceTrace()[4], CancelOnlyQueued).value;
    assert r.tasks == [Task("k", 0, Done, false)];
    assert r.holders == [Holder("v", 1, 0, None)];
  }

  /** Replaying the race: the outcome of its last step decides the whole replay. */
  lemma RaceReplay(sem: CancelSemantics)
    ensures Replay(Init<string, string>(), RaceTrace(), sem) == Replay(RaceState(4, sem), RaceTrace()[4..], sem)
  {
    var trace := RaceTrace();
    RaceStep1(sem);
    RaceStep2(sem);
    RaceStep3(sem);
    RaceStep4(sem);
    assert trace[1..][1..] == trace[2..] && trace[2..][1..] == trace[3..] && trace[3..][1..] == trace[4..];
    assert Replay(RaceState(3, sem), trace[3..], sem) == Replay(RaceState(4, sem), trace[4..], sem);
    assert Replay(RaceState(2, sem), trace[2..], sem) == Replay(RaceState(3, sem), trace[3..], sem);
    assert Replay(RaceState(1, sem), trace[1..], sem) == Replay(RaceState(2, sem), trace[2..], sem);
  }

  /**
   * With `cancel(false)` as `ScheduledFuture` implements it, the second
   * acquire cancels the cleanup that has already started and counts it off.
   * The cleanup then runs and counts itself off again, so the check in
   * `releaseForCleaning` fails.
   */
  lemma CancelOfStartedCleanupDoubleCounts()
    ensures Replay(Init<string, string>(), RaceTrace(), FutureTaskCancel) == Failure(IllegalState(NEGATIVE_IN_RELEASE))
  {
    var trace := RaceTrace();
    RaceReplay(FutureTaskCancel);
    RaceStep5();
    assert trace[4..] == [RunEvent(0)];
  }

  /**
   * With the intended cancel, the started cleanup is not cancelled. It runs
   * and counts itself off once, and the referenced key stays cached.
   */
  lemma IntendedCancelKeepsKeyCached()
    ensures Replay(Init<string, string>(), RaceTrace(), CancelOnlyQueued) == Success(RaceState(5, CancelOnlyQueued))
  {
    var trace := RaceTrace();
    RaceReplay(CancelOnlyQueued);
    RaceStep5();
    assert trace[4..] == [RunEvent(0)] && trace[4..][1..] == [];
  }
}
