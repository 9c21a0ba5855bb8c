/** How the state of each cache moves: what makes it Ready, what takes that away,
    and what a retry sequence remembers of it in between.
 */
module SystemStates {
  import opened AuthTypes
  import opened LockCache
  import opened ExpiryCache
  import opened LockCoherence
  import opened GraceLedger
  import opened RetryDegrade
  import opened AuthSystem
  import opened SystemInvariant
  import P = EventProtocol

  // ---------------------------------------------------------------------
  // Retry sequences
  // ---------------------------------------------------------------------

  /** The state of a cache this retry sequence took down. */
  predicate TakenDown(st: CacheState) {
    st == WorkerFailed || st == Overflow
  }

  /** Failures are counted only while the worker holds an event. */
  predicate FailuresInv(s: System) {
    s.failures > 0 ==> P.HasPending(s.p)
  }

  /** Demotions are remembered only while failures are counted, and what is
      remembered is down. */
  predicate DemotionsInv(s: System) {
    && (s.degraded.lock ==> s.failures > 0 && TakenDown(s.lk.state))
    && (s.degraded.expiry ==> s.failures > 0 && TakenDown(s.ex.state))
  }

  predicate RetryInv(s: System) {
    FailuresInv(s) && DemotionsInv(s)
  }

  predicate DropsEvent(a: P.Action) {
    LeavesConsuming(a) || a.CommitCallback? || a.StopWorker? || a.Crash?
  }

  lemma PipelineKeepsPending(p: P.State, a: P.Action)
    requires P.HasPending(p) && P.Enabled(p, a) && !DropsEvent(a)
    ensures P.HasPending(P.Step(p, a))
  {
  }

  /** Actions that end a retry sequence. */
  predicate EndsRetries(a: SysAction) {
    a.StartConsuming? || a.LeaveConsuming? || a.WorkerCallback? || a.StopWorker? || a.Crash?
  }

  lemma EndClearsRetries(s: System, a: SysAction)
    requires DemotionsInv(s) && Enabled(s, a) && EndsRetries(a)
    ensures Step(s, a).failures == 0 && Step(s, a).degraded == NOT_DEGRADED
  {
  }

  lemma FailuresMove(s: System, a: SysAction)
    requires Enabled(s, a) && !EndsRetries(a)
    ensures Step(s, a).failures == s.failures + (if a.WorkerRollBack? then 1 else 0)
    ensures a.WorkerRollBack? || Step(s, a).degraded == s.degraded
  {
  }

  lemma StepKeepsFailuresInv(s: System, a: SysAction)
    requires RetryInv(s) && Enabled(s, a)
    ensures FailuresInv(Step(s, a))
  {
    if EndsRetries(a) {
      EndClearsRetries(s, a);
    } else {
      FailuresMove(s, a);
      var step := PipelineStep(s, a);
      if P.HasPending(s.p) && step.Some? {
        PipelineKeepsPending(s.p, step.value);
      }
    }
  }

  lemma StepKeepsDemotionsInv(s: System, a: SysAction)
    requires RetryInv(s) && Enabled(s, a)
    ensures DemotionsInv(Step(s, a))
  {
    if EndsRetries(a) {
      EndClearsRetries(s, a);
    } else {
      FailuresMove(s, a);
      if a.WorkerRollBack? {
        AttemptTakesDown(P.PendingEvent(s.p), s.degraded, StatesOf(s));
      } else {
        LockStateMoves(s, a);
        ExpiryStateMoves(s, a);
      }
    }
  }

  lemma StepKeepsRetryInv(s: System, a: SysAction)
    requires RetryInv(s) && Enabled(s, a)
    ensures RetryInv(Step(s, a))
  {
    StepKeepsFailuresInv(s, a);
    StepKeepsDemotionsInv(s, a);
  }

  lemma {:induction false} RunsKeepRetryInv(s: System, acts: seq<SysAction>, s': System)
    requires RetryInv(s) && Reaches(s, acts, s')
    ensures RetryInv(s')
    decreases |acts|
  {
    if acts != [] {
      StepKeepsRetryInv(s, acts[0]);
      RunsKeepRetryInv(Step(s, acts[0]), acts[1..], s');
    }
  }

  /** In every reachable state, a rolled-back attempt takes down the caches its
      event may have left behind: the expiry cache for a grace event, the lock
      cache for any other and for a grace event that clears attempts; only a Ready
      one, and nothing else. */
  lemma {:induction false} RollBackTakesDown(clock: int, acts: seq<SysAction>, s: System)
    requires Reaches(Init(clock), acts, s) && Enabled(s, WorkerRollBack)
    ensures var e, s' := P.PendingEvent(s.p), Step(s, WorkerRollBack);
            && s'.ex == s.ex.(state := if e.kind == KIND_GRACE && s.ex.state == Ready then WorkerFailed else s.ex.state)
            && s'.lk == s.lk.(state := if (e.kind != KIND_GRACE || e.flags % 2 == 1) && s.lk.state == Ready
                                       then WorkerFailed else s.lk.state)
            && (s'.degraded.lock <==> s.degraded.lock || s'.lk.state != s.lk.state)
            && (s'.degraded.expiry <==> s.degraded.expiry || s'.ex.state != s.ex.state)
            && s'.failures == s.failures + 1 && P.HasPending(s'.p) && P.PendingEvent(s'.p) == e
  {
    RunsKeepRetryInv(Init(clock), acts, s);
    AttemptTakesDown(P.PendingEvent(s.p), s.degraded, StatesOf(s));
  }

  /** In every reachable state, the commit that ends a retry sequence leaves
      nothing of it: what the sequence took down is Ready again, or has overflowed
      meanwhile, and exactly then the worker returns to hydration. */
  lemma {:induction false} CallbackRestores(clock: int, acts: seq<SysAction>, s: System)
    requires Reaches(Init(clock), acts, s) && Enabled(s, WorkerCallback)
    ensures var s' := Step(s, WorkerCallback);
            && s'.lk == s.lk.(state := if s.degraded.lock && s.lk.state == WorkerFailed then Ready else s.lk.state)
            && s'.ex == s.ex.(state := if s.degraded.expiry && s.ex.state == WorkerFailed then Ready else s.ex.state)
            && (s.degraded.lock ==> s'.lk.state == Ready || s'.lk.state == Overflow)
            && (s.degraded.expiry ==> s'.ex.state == Ready || s'.ex.state == Overflow)
            && s'.failures == 0 && s'.degraded == NOT_DEGRADED
            && (s'.p.worker.Hydrating? <==>
                  (s.degraded.lock && s.lk.state == Overflow) || (s.degraded.expiry && s.ex.state == Overflow))
  {
    RunsKeepRetryInv(Init(clock), acts, s);
    RestoreMoves(s);
    EndClearsRetries(s, WorkerCallback);
  }

  lemma RestoreMoves(s: System)
    requires DemotionsInv(s) && Enabled(s, WorkerCallback)
    ensures var s' := Step(s, WorkerCallback);
            && s'.lk == s.lk.(state := if s.degraded.lock && s.lk.state == WorkerFailed then Ready else s.lk.state)
            && s'.ex == s.ex.(state := if s.degraded.expiry && s.ex.state == WorkerFailed then Ready else s.ex.state)
            && (s'.p.worker.Hydrating? <==>
                  (s.degraded.lock && s.lk.state == Overflow) || (s.degraded.expiry && s.ex.state == Overflow))
  {
  }

  // ---------------------------------------------------------------------
  // What moves a state
  // ---------------------------------------------------------------------

  /** Something does not fit. */
  ghost predicate LockOverflows(s: System, a: SysAction)
    requires Enabled(s, a)
  {
    || (a.HydrateLock? && |ActiveUsers(s.lk.attempts, a.readAt)| > LOCK_CACHE_SIZE)
    || (a.ApplyLock? && Refused(s.lk, a.user, s.clock))
  }

  ghost predicate ExpiryOverflows(s: System, a: SysAction)
    requires Enabled(s, a)
  {
    || (a.HydrateExpiryCache? && |s.ex.rows| > EXPIRY_CACHE_SIZE)
    || (a.ApplyExpiryEntry? && RowRefused(s.ex, a.user))
  }

  /** A Ready cache is taken down, by a failed attempt or with the worker. */
  predicate LockGoesDown(s: System, a: SysAction) {
    && s.lk.state == Ready
    && (a.StopWorker? || (a.WorkerRollBack? && P.HasPending(s.p)
                          && (P.PendingEvent(s.p).kind != KIND_GRACE || P.PendingEvent(s.p).flags % 2 == 1)))
  }

  predicate ExpiryGoesDown(s: System, a: SysAction) {
    && s.ex.state == Ready
    && (a.StopWorker? || (a.WorkerRollBack? && P.HasPending(s.p) && P.PendingEvent(s.p).kind == KIND_GRACE))
  }

  /** A hydration that fits, or the end of the retry sequence that took the cache
      down. */
  ghost predicate LockComesUp(s: System, a: SysAction)
    requires Enabled(s, a)
  {
    || (a.HydrateLock? && |ActiveUsers(s.lk.attempts, a.readAt)| <= LOCK_CACHE_SIZE)
    || (a.WorkerCallback? && s.degraded.lock && s.lk.state == WorkerFailed)
  }

  ghost predicate ExpiryComesUp(s: System, a: SysAction)
    requires Enabled(s, a)
  {
    || (a.HydrateExpiryCache? && |s.ex.rows| <= EXPIRY_CACHE_SIZE)
    || (a.WorkerCallback? && s.degraded.expiry && s.ex.state == WorkerFailed)
  }

  /** Actions that can move a state. */
  predicate MovesStates(a: SysAction) {
    || a.ApplyLock? || a.ApplyExpiryEntry? || a.HydrateLock? || a.HydrateLockFails? || a.HydrateExpiryCache?
    || a.HydrateExpiryFails? || a.WorkerRollBack? || a.WorkerCallback? || a.StopWorker? || a.Crash?
  }

  lemma OthersKeepStates(s: System, a: SysAction)
    requires Enabled(s, a) && !MovesStates(a)
    ensures StatesOf(Step(s, a)) == StatesOf(s)
  {
  }

  lemma AttemptMovesStates(s: System)
    requires DemotionsInv(s) && Enabled(s, WorkerRollBack)
    ensures var e, s' := P.PendingEvent(s.p), Step(s, WorkerRollBack);
            && s'.lk.state == (if (e.kind != KIND_GRACE || e.flags % 2 == 1) && s.lk.state == Ready then WorkerFailed
                               else s.lk.state)
            && s'.ex.state == (if e.kind == KIND_GRACE && s.ex.state == Ready then WorkerFailed else s.ex.state)
  {
    AttemptTakesDown(P.PendingEvent(s.p), s.degraded, StatesOf(s));
  }

  /** Every move of the lock cache's state, over all actions: Overflow when
      something does not fit, NotReady after a crash or a failed hydration,
      WorkerFailed from Ready when taken down, Ready when it comes up; and no
      other action moves it. */
  lemma LockStateMoves(s: System, a: SysAction)
    requires RetryInv(s) && Enabled(s, a)
    ensures var st := Step(s, a).lk.state;
            && (LockOverflows(s, a) ==> st == Overflow)
            && (a.Crash? || a.HydrateLockFails? ==> st == NotReady)
            && (LockGoesDown(s, a) ==> st == WorkerFailed)
            && (LockComesUp(s, a) ==> st == Ready)
            && (!LockOverflows(s, a) && !a.Crash? && !a.HydrateLockFails? && !LockGoesDown(s, a) && !LockComesUp(s, a)
                ==> st == s.lk.state)
  {
    if !MovesStates(a) {
      OthersKeepStates(s, a);
    } else if a.WorkerRollBack? {
      AttemptMovesStates(s);
    } else if a.WorkerCallback? {
      RestoreMoves(s);
    } else {
      LockFitMoves(s, a);
    }
  }

  lemma LockFitMoves(s: System, a: SysAction)
    requires Enabled(s, a) && MovesStates(a) && !a.WorkerRollBack? && !a.WorkerCallback?
    ensures Step(s, a).lk.state ==
              if LockOverflows(s, a) then Overflow
              else if a.Crash? || a.HydrateLockFails? then NotReady
              else if a.StopWorker? && s.lk.state == Ready then WorkerFailed
              else if a.HydrateLock? then Ready
              else s.lk.state
  {
    if a.ApplyLock? {
      ApplyOverflows(s.lk, a.user, s.clock);
    } else if a.HydrateLock? {
      HydrationIsReadyIff(s.lk, a.prepared, a.readAt, s.clock);
    }
  }

  lemma ExpiryStateMoves(s: System, a: SysAction)
    requires RetryInv(s) && Enabled(s, a)
    ensures var st := Step(s, a).ex.state;
            && (ExpiryOverflows(s, a) ==> st == Overflow)
            && (a.Crash? || a.HydrateExpiryFails? ==> st == NotReady)
            && (ExpiryGoesDown(s, a) ==> st == WorkerFailed)
            && (ExpiryComesUp(s, a) ==> st == Ready)
            && (!ExpiryOverflows(s, a) && !a.Crash? && !a.HydrateExpiryFails? && !ExpiryGoesDown(s, a) && !ExpiryComesUp(s, a)
                ==> st == s.ex.state)
  {
    if !MovesStates(a) {
      OthersKeepStates(s, a);
    } else if a.WorkerRollBack? {
      AttemptMovesStates(s);
    } else if a.WorkerCallback? {
      RestoreMoves(s);
    } else {
      ExpiryFitMoves(s, a);
    }
  }

  lemma ExpiryFitMoves(s: System, a: SysAction)
    requires Enabled(s, a) && MovesStates(a) && !a.WorkerRollBack? && !a.WorkerCallback?
    ensures Step(s, a).ex.state ==
              if ExpiryOverflows(s, a) then Overflow
              else if a.Crash? || a.HydrateExpiryFails? then NotReady
              else if a.StopWorker? && s.ex.state == Ready then WorkerFailed
              else if a.HydrateExpiryCache? then Ready
              else s.ex.state
  {
    if a.ApplyExpiryEntry? {
      ApplyExpiryOverflows(s.ex, s.p.written, Cut(s), a.user);
    } else if a.HydrateExpiryCache? {
      ExpiryHydrationIsReadyIff(s.ex, a.rows, s.p.written, Cut(s));
    }
  }

  // ---------------------------------------------------------------------
  // Where Ready comes from
  // ---------------------------------------------------------------------

  /** Nothing in the run forgets the lock cache. */
  predicate KeepsLock(acts: seq<SysAction>) {
    forall i :: 0 <= i < |acts| ==> !acts[i].Crash? && !acts[i].HydrateLockFails? && !acts[i].StopWorker?
  }

  predicate KeepsExpiry(acts: seq<SysAction>) {
    forall i :: 0 <= i < |acts| ==> !acts[i].Crash? && !acts[i].HydrateExpiryFails? && !acts[i].StopWorker?
  }

  lemma LockTrustBefore(s: System, a: SysAction)
    requires RetryInv(s) && Enabled(s, a) && Trusted(Step(s, a).lk.state, Step(s, a).degraded.lock)
    ensures a.HydrateLock? || (Trusted(s.lk.state, s.degraded.lock) && KeepsLock([a]))
  {
    LockStateMoves(s, a);
    if EndsRetries(a) {
      EndClearsRetries(s, a);
    } else {
      FailuresMove(s, a);
    }
  }

  lemma {:induction false} LockTrustIsEarned(s: System, acts: seq<SysAction>, s': System)
    requires RetryInv(s) && Reaches(s, acts, s') && Trusted(s'.lk.state, s'.degraded.lock)
    ensures || (Trusted(s.lk.state, s.degraded.lock) && KeepsLock(acts))
            || exists i :: 0 <= i < |acts| && acts[i].HydrateLock? && KeepsLock(acts[i + 1..])
    decreases |acts|
  {
    if acts != [] {
      var s1, rest := Step(s, acts[0]), acts[1..];
      StepKeepsRetryInv(s, acts[0]);
      LockTrustIsEarned(s1, rest, s');
      if Trusted(s1.lk.state, s1.degraded.lock) && KeepsLock(rest) {
        LockTrustBefore(s, acts[0]);
        assert acts == [acts[0]] + rest;
        if acts[0].HydrateLock? {
          assert acts[0 + 1..] == rest;
        }
      } else {
        var i :| 0 <= i < |rest| && rest[i].HydrateLock? && KeepsLock(rest[i + 1..]);
        assert acts[i + 1] == rest[i] && acts[i + 1 + 1..] == rest[i + 1..];
      }
    }
  }

  lemma ExpiryTrustBefore(s: System, a: SysAction)
    requires RetryInv(s) && Enabled(s, a) && Trusted(Step(s, a).ex.state, Step(s, a).degraded.expiry)
    ensures a.HydrateExpiryCache? || (Trusted(s.ex.state, s.degraded.expiry) && KeepsExpiry([a]))
  {
    ExpiryStateMoves(s, a);
    if EndsRetries(a) {
      EndClearsRetries(s, a);
    } else {
      FailuresMove(s, a);
    }
  }

  lemma {:induction false} ExpiryTrustIsEarned(s: System, acts: seq<SysAction>, s': System)
    requires RetryInv(s) && Reaches(s, acts, s') && Trusted(s'.ex.state, s'.degraded.expiry)
    ensures || (Trusted(s.ex.state, s.degraded.expiry) && KeepsExpiry(acts))
            || exists i :: 0 <= i < |acts| && acts[i].HydrateExpiryCache? && KeepsExpiry(acts[i + 1..])
    decreases |acts|
  {
    if acts != [] {
      var s1, rest := Step(s, acts[0]), acts[1..];
      StepKeepsRetryInv(s, acts[0]);
      ExpiryTrustIsEarned(s1, rest, s');
      if Trusted(s1.ex.state, s1.degraded.expiry) && KeepsExpiry(rest) {
        ExpiryTrustBefore(s, acts[0]);
        assert acts == [acts[0]] + rest;
        if acts[0].HydrateExpiryCache? {
          assert acts[0 + 1..] == rest;
        }
      } else {
        var i :| 0 <= i < |rest| && rest[i].HydrateExpiryCache? && KeepsExpiry(rest[i + 1..]);
        assert acts[i + 1] == rest[i] && acts[i + 1 + 1..] == rest[i + 1..];
      }
    }
  }

  /** In every run a cache is Ready only on the strength of a hydration of its
      own, with no crash, failed hydration or stop of the worker after it. */
  lemma {:induction false} ReadyIsEarned(clock: int, acts: seq<SysAction>, s: System)
    requires Reaches(Init(clock), acts, s)
    ensures s.lk.state == Ready ==>
              exists i :: 0 <= i < |acts| && acts[i].HydrateLock? && KeepsLock(acts[i + 1..])
    ensures s.ex.state == Ready ==>
              exists i :: 0 <= i < |acts| && acts[i].HydrateExpiryCache? && KeepsExpiry(acts[i + 1..])
  {
    if s.lk.state == Ready {
      LockTrustIsEarned(Init(clock), acts, s);
    }
    if s.ex.state == Ready {
      ExpiryTrustIsEarned(Init(clock), acts, s);
    }
  }
}
