/** How a retry sequence of one event degrades and restores cache states. */
module RetryDegrade {
  import opened AuthTypes
  import opened LockCache

  /** Which caches an event writes. */
  datatype Affected = Affected(lock: bool, expiry: bool)

  function AffectedBy(e: Event): Affected {
    if e.kind == KIND_GRACE then Affected(ClearsAttempts(e), true) else Affected(true, false)
  }

  /** Which caches this retry sequence moved from Ready to WorkerFailed. */
  datatype Degraded = Degraded(lock: bool, expiry: bool)

  const NOT_DEGRADED: Degraded := Degraded(false, false)

  datatype States = States(lock: CacheState, expiry: CacheState)

  function Mark(d: Degraded, st: States, a: Affected): (Degraded, States) {
    var l, x := a.lock && !d.lock && st.lock == Ready, a.expiry && !d.expiry && st.expiry == Ready;
    (Degraded(d.lock || l, d.expiry || x),
     States(if l then WorkerFailed else st.lock, if x then WorkerFailed else st.expiry))
  }

  function Restored(degraded: bool, st: CacheState): CacheState {
    if degraded && st == WorkerFailed then Ready else st
  }

  predicate StillIncomplete(degraded: bool, st: CacheState) {
    degraded && st != WorkerFailed && st != Ready
  }

  /** The restored states, and whether coverage is still incomplete. */
  function Restore(d: Degraded, st: States): (States, bool) {
    (States(Restored(d.lock, st.lock), Restored(d.expiry, st.expiry)),
     StillIncomplete(d.lock, st.lock) || StillIncomplete(d.expiry, st.expiry))
  }

  /** The cache states in shared memory and the worker's record of its own
      demotions, updated as `mark` and `restore` do. */
  class RetrySequence {
    var degraded: Degraded
    var states: States

    method MarkAffected(a: Affected)
      modifies this
      ensures (degraded, states) == Mark(old(degraded), old(states), a)
    {
      if a.lock && !degraded.lock && states.lock == Ready {
        states := states.(lock := WorkerFailed);
        degraded := degraded.(lock := true);
      }
      if a.expiry && !degraded.expiry && states.expiry == Ready {
        states := states.(expiry := WorkerFailed);
        degraded := degraded.(expiry := true);
      }
    }

    method RestoreDegraded() returns (stillIncomplete: bool)
      modifies this
      ensures degraded == NOT_DEGRADED
      ensures (states, stillIncomplete) == Restore(old(degraded), old(states))
    {
      stillIncomplete := false;
      if degraded.lock {
        match states.lock {
          case WorkerFailed => states := states.(lock := Ready);
          case Ready =>
          case _ => stillIncomplete := true;
        }
        degraded := degraded.(lock := false);
      }
      if degraded.expiry {
        match states.expiry {
          case WorkerFailed => states := states.(expiry := Ready);
          case Ready =>
          case _ => stillIncomplete := true;
        }
        degraded := degraded.(expiry := false);
      }
    }
  }

  // ---------------------------------------------------------------------
  // Whole retry sequences, with overflows recorded in between
  // ---------------------------------------------------------------------

  datatype RetryOp = FailedAttempt(affected: Affected) | LockOverflow | ExpiryOverflow

  function RetryRun(st: States, ops: seq<RetryOp>): (Degraded, States) {
    if ops == [] then (NOT_DEGRADED, st)
    else
      var (d, st1) := RetryRun(st, ops[..|ops| - 1]);
      match ops[|ops| - 1]
      case FailedAttempt(a) => Mark(d, st1, a)
      case LockOverflow => (d, st1.(lock := Overflow))
      case ExpiryOverflow => (d, st1.(expiry := Overflow))
  }

  /** Attempt `i` demoted the lock cache from Ready, and no lock overflow has
      been recorded since. */
  ghost predicate DemotedLockAt(st: States, ops: seq<RetryOp>, i: nat)
    requires i < |ops|
  {
    && ops[i].FailedAttempt? && ops[i].affected.lock
    && RetryRun(st, ops[..i]).1.lock == Ready
    && forall j :: i < j < |ops| ==> !ops[j].LockOverflow?
  }

  ghost predicate DemotedExpiryAt(st: States, ops: seq<RetryOp>, i: nat)
    requires i < |ops|
  {
    && ops[i].FailedAttempt? && ops[i].affected.expiry
    && RetryRun(st, ops[..i]).1.expiry == Ready
    && forall j :: i < j < |ops| ==> !ops[j].ExpiryOverflow?
  }

  lemma {:induction false} LockDemotion(st: States, ops: seq<RetryOp>)
    ensures var (d, st') := RetryRun(st, ops);
            && (d.lock ==> st'.lock == WorkerFailed || st'.lock == Overflow)
            && (d.lock && st'.lock == WorkerFailed <==> exists i :: 0 <= i < |ops| && DemotedLockAt(st, ops, i))
  {
    if ops != [] {
      var n := |ops|;
      var init := ops[..n - 1];
      LockDemotion(st, init);
      var (d, st') := RetryRun(st, ops);
      forall i | 0 <= i < n - 1
        ensures DemotedLockAt(st, ops, i) <==> DemotedLockAt(st, init, i) && !ops[n - 1].LockOverflow?
      {
        assert init[..i] == ops[..i];
      }
      assert DemotedLockAt(st, ops, n - 1) <==>
             ops[n - 1].FailedAttempt? && ops[n - 1].affected.lock && RetryRun(st, init).1.lock == Ready;
      if d.lock && st'.lock == WorkerFailed && !DemotedLockAt(st, ops, n - 1) {
        var i :| 0 <= i < |init| && DemotedLockAt(st, init, i);
        assert DemotedLockAt(st, ops, i);
      }
    }
  }

  lemma {:induction false} ExpiryDemotion(st: States, ops: seq<RetryOp>)
    ensures var (d, st') := RetryRun(st, ops);
            && (d.expiry ==> st'.expiry == WorkerFailed || st'.expiry == Overflow)
            && (d.expiry && st'.expiry == WorkerFailed <==>
                  exists i :: 0 <= i < |ops| && DemotedExpiryAt(st, ops, i))
  {
    if ops != [] {
      var n := |ops|;
      var init := ops[..n - 1];
      ExpiryDemotion(st, init);
      var (d, st') := RetryRun(st, ops);
      forall i | 0 <= i < n - 1
        ensures DemotedExpiryAt(st, ops, i) <==> DemotedExpiryAt(st, init, i) && !ops[n - 1].ExpiryOverflow?
      {
        assert init[..i] == ops[..i];
      }
      assert DemotedExpiryAt(st, ops, n - 1) <==>
             ops[n - 1].FailedAttempt? && ops[n - 1].affected.expiry && RetryRun(st, init).1.expiry == Ready;
      if d.expiry && st'.expiry == WorkerFailed && !DemotedExpiryAt(st, ops, n - 1) {
        var i :| 0 <= i < |init| && DemotedExpiryAt(st, init, i);
        assert DemotedExpiryAt(st, ops, i);
      }
    }
  }

  /** Over every retry sequence, restoring turns a cache Ready exactly when this
      sequence demoted it from Ready and no overflow of it was recorded since. */
  lemma RestoreIsEarned(st: States, ops: seq<RetryOp>)
    ensures var (d, st') := RetryRun(st, ops);
            var (st'', _) := Restore(d, st');
            && (st''.lock == Ready && st'.lock != Ready <==>
                  exists i :: 0 <= i < |ops| && DemotedLockAt(st, ops, i))
            && (st''.expiry == Ready && st'.expiry != Ready <==>
                  exists i :: 0 <= i < |ops| && DemotedExpiryAt(st, ops, i))
  {
    LockDemotion(st, ops);
    ExpiryDemotion(st, ops);
  }

  /** What a failed attempt of an event takes down: the expiry cache only for a
      grace event, the lock cache for any event that may write `login_attempts`,
      and neither unless it was Ready. */
  lemma AttemptTakesDown(e: Event, d: Degraded, st: States)
    requires (d.lock ==> st.lock != Ready) && (d.expiry ==> st.expiry != Ready)
    ensures var (d', st') := Mark(d, st, AffectedBy(e));
            && st'.expiry == (if e.kind == KIND_GRACE && st.expiry == Ready then WorkerFailed else st.expiry)
            && st'.lock == (if (e.kind != KIND_GRACE || e.flags % 2 == 1) && st.lock == Ready then WorkerFailed
                            else st.lock)
            && (d'.expiry <==> d.expiry || st'.expiry != st.expiry)
            && (d'.lock <==> d.lock || st'.lock != st.lock)
  {
  }

  /** An attempt took the lock cache down from Ready. */
  ghost predicate TookLockDown(st: States, ops: seq<RetryOp>, i: nat)
    requires i < |ops|
  {
    ops[i].FailedAttempt? && ops[i].affected.lock && RetryRun(st, ops[..i]).1.lock == Ready
  }

  ghost predicate TookExpiryDown(st: States, ops: seq<RetryOp>, i: nat)
    requires i < |ops|
  {
    ops[i].FailedAttempt? && ops[i].affected.expiry && RetryRun(st, ops[..i]).1.expiry == Ready
  }

  /** The sequence remembers a cache exactly when one of its attempts took it
      down. */
  lemma {:induction false} RemembersDemotions(st: States, ops: seq<RetryOp>)
    ensures var (d, _) := RetryRun(st, ops);
            && (d.lock <==> exists i :: 0 <= i < |ops| && TookLockDown(st, ops, i))
            && (d.expiry <==> exists i :: 0 <= i < |ops| && TookExpiryDown(st, ops, i))
  {
    if ops != [] {
      var n := |ops|;
      var init := ops[..n - 1];
      RemembersDemotions(st, init);
      LockDemotion(st, init);
      ExpiryDemotion(st, init);
      forall i | 0 <= i < n - 1
        ensures TookLockDown(st, ops, i) <==> TookLockDown(st, init, i)
        ensures TookExpiryDown(st, ops, i) <==> TookExpiryDown(st, init, i)
      {
        assert init[..i] == ops[..i];
      }
      assert TookLockDown(st, ops, n - 1) <==>
             ops[n - 1].FailedAttempt? && ops[n - 1].affected.lock && RetryRun(st, init).1.lock == Ready;
      assert TookExpiryDown(st, ops, n - 1) <==>
             ops[n - 1].FailedAttempt? && ops[n - 1].affected.expiry && RetryRun(st, init).1.expiry == Ready;
    }
  }

  /** Restoring reports incomplete coverage exactly when a cache this sequence
      took down has overflowed since: it was taken down, and no taking down is
      without a later overflow. */
  lemma RestoreReportsLoss(st: States, ops: seq<RetryOp>)
    ensures var (d, st') := RetryRun(st, ops);
            Restore(d, st').1 <==>
              || ((exists i :: 0 <= i < |ops| && TookLockDown(st, ops, i))
                  && !(exists i :: 0 <= i < |ops| && DemotedLockAt(st, ops, i)))
              || ((exists i :: 0 <= i < |ops| && TookExpiryDown(st, ops, i))
                  && !(exists i :: 0 <= i < |ops| && DemotedExpiryAt(st, ops, i)))
  {
    RemembersDemotions(st, ops);
    LockDemotion(st, ops);
    ExpiryDemotion(st, ops);
  }

  /** A cache none of the failed attempts affects keeps its state through the
      sequence and its restoration, overflows of that cache aside. */
  lemma {:induction false} UnaffectedStatesStay(st: States, ops: seq<RetryOp>)
    ensures var (d, st') := RetryRun(st, ops);
            var (st'', _) := Restore(d, st');
            && ((forall i :: 0 <= i < |ops| ==>
                   !ops[i].LockOverflow? && (ops[i].FailedAttempt? ==> !ops[i].affected.lock)) ==>
                  st''.lock == st.lock && !d.lock && st'.lock == st.lock)
            && ((forall i :: 0 <= i < |ops| ==>
                   !ops[i].ExpiryOverflow? && (ops[i].FailedAttempt? ==> !ops[i].affected.expiry)) ==>
                  st''.expiry == st.expiry && !d.expiry && st'.expiry == st.expiry)
  {
    if ops != [] {
      UnaffectedStatesStay(st, ops[..|ops| - 1]);
    }
  }
}
