/** The invariant of the whole system and its preservation by every step: the
    pipeline's own invariant, the coherence of the lock cache, and the grace
    ledger.
 */
module SystemInvariant {
  import opened AuthTypes
  import opened LockCache
  import opened ExpiryCache
  import opened LoginTables
  import opened Transactions
  import opened LockCoherence
  import opened GraceLedger
  import opened AuthSystem
  import P = EventProtocol

  // ---------------------------------------------------------------------
  // Invariant
  // ---------------------------------------------------------------------

  /** A cache whose contents still answer for the table: Ready, or demoted from
      Ready by the retry sequence in progress. */
  predicate Trusted(st: CacheState, demotedByUs: bool) {
    st == Ready || (st == WorkerFailed && demotedByUs)
  }

  ghost predicate LockPart(s: System) {
    LockInv(s.lk, s.clock, Trusted(s.lk.state, s.degraded.lock))
  }

  ghost predicate GracePart(s: System) {
    && |s.p.applied| <= |s.p.written|
    && GraceInv(s.ex, s.p.written, |s.p.applied|, Trusted(s.ex.state, s.degraded.expiry))
  }

  lemma StepKeepsPipeline(s: System, a: SysAction)
    requires P.Inv(s.p) && Enabled(s, a)
    ensures P.Inv(PipelineNext(s, a))
  {
    var step := PipelineStep(s, a);
    if step.Some? {
      P.StepKeepsInv(s.p, step.value);
      if a.WorkerCallback? {
        P.StepKeepsInv(P.Step(s.p, P.CommitCallback), P.ReturnToHydration);
      }
    }
  }

  // ---------------------------------------------------------------------
  // The lock cache
  // ---------------------------------------------------------------------

  /** A new state the contents still answer for. */
  lemma StateChangeKeepsLockInv(lk: LockSide, st: CacheState, clock: int, trusted: bool, trusted': bool)
    requires LockInv(lk, clock, trusted) && (trusted' ==> trusted)
    ensures LockInv(lk.(state := st), clock, trusted')
  {
    var lk' := lk.(state := st);
    if trusted' {
      forall u | u !in lk'.inflight ensures SameLockout(lk', u, clock) {
        assert SameLockout(lk, u, clock);
      }
      forall u | u in lk'.inflight ensures InflightOk(lk', u, clock) {
        assert InflightOk(lk, u, clock);
      }
    }
  }

  /** The transaction does not change `u`'s live lockout behind the cache's
      back: its last operation on `u` is the one that changed it, or it left the
      live lockout as it was. */
  ghost predicate LockKept(s: System, tx: Tx, u: Name)
    requires |tx.ops| > 0
  {
    || LockCovered(tx.ops[0], u)
    || LiveOnly(UntilOf(RowOf(tx.db.attempts, u)), s.clock) == LiveOnly(LockUntil(s.lk, u), s.clock)
  }

  /** What keeps a trusted lock cache coherent: transactions do not lose the lock
      half of a staged pair, and callbacks are punctual. */
  ghost predicate LockSafe(s: System, a: SysAction)
    requires Enabled(s, a)
  {
    Trusted(s.lk.state, s.degraded.lock) ==>
      match a
      case BackendCommit(_, _, _, tx) => forall u :: LockKept(s, tx, u)
      case ApplyLock(user) => Punctual(s.lk, user, s.clock)
      case _ => true
  }

  lemma WorkerCommitLockOk(s: System, a: SysAction, u: Name)
    requires a.WorkerCommit? && Enabled(s, a) && FirstTime(s) && WorkerOp(s, a).Some?
    ensures var op := WorkerOp(s, a).value;
            var after := Effect(DbOf(s), op, a.start);
            var d := StagedPair(after, op).lock;
            d.Some? && CommitOk(s.lk, after.attempts, map[op.user := d.value], s.clock, u)
  {
    var op := WorkerOp(s, a).value;
    SingleOp(DbOf(s), op, a.start);
    LastCall(DbOf(s), [op], a.start, u);
    LockOpsAgree(DbOf(s), [op], a.start, u, s.clock);
  }

  lemma WorkerCommitKeepsLockPart(s: System, a: SysAction)
    requires LockPart(s) && a.WorkerCommit? && Enabled(s, a)
    ensures LockPart(CachesNext(s, a))
  {
    if FirstTime(s) && WorkerOp(s, a).Some? {
      var op := WorkerOp(s, a).value;
      var after := Effect(DbOf(s), op, a.start);
      forall u ensures CommitOk(s.lk, after.attempts, map[op.user := StagedPair(after, op).lock.value], s.clock, u) {
        WorkerCommitLockOk(s, a, u);
      }
      if Trusted(s.lk.state, s.degraded.lock) {
        CommitKeepsCoherent(s.lk, after.attempts, map[op.user := StagedPair(after, op).lock.value], s.clock);
      }
    }
  }

  lemma BackendCommitLockOk(s: System, a: SysAction, u: Name)
    requires a.BackendCommit? && BackendCommitOk(s, a)
    ensures CommitOk(s.lk, a.tx.db.attempts, StagedLocks(a.tx), s.clock, u) <==> LockKept(s, a.tx, u)
  {
    var ops := a.tx.ops[0];
    StagedDecisionsAgree(DbOf(s), a.start, a.subid, a.steps, a.tx, u, s.clock);
    LockStagedIff(DbOf(s), a.start, a.subid, a.steps, a.tx, u);
    if HasLockOp(ops, u) {
      var i :| 0 <= i < |ops| && LockOpOn(ops[i], u);
      assert u in UsersOf(ops);
    }
  }

  lemma BackendCommitKeepsNamed(s: System, a: SysAction)
    requires RowsNamed(s.lk.attempts) && a.BackendCommit? && BackendCommitOk(s, a)
    ensures RowsNamed(a.tx.db.attempts)
  {
    forall u | u in a.tx.db.attempts ensures Occupied(u) {
      TransactionIsItsSurvivors(DbOf(s), a.start, a.subid, a.steps, a.tx, u);
      ChangedRowHasFailure(DbOf(s), a.tx.ops[0], a.start, u);
    }
  }

  lemma BackendCommitKeepsLockPart(s: System, a: SysAction)
    requires LockPart(s) && a.BackendCommit? && Enabled(s, a) && LockSafe(s, a)
    ensures LockPart(CachesNext(s, a))
  {
    BackendCommitKeepsNamed(s, a);
    if Trusted(s.lk.state, s.degraded.lock) {
      forall u ensures CommitOk(s.lk, a.tx.db.attempts, StagedLocks(a.tx), s.clock, u) {
        BackendCommitLockOk(s, a, u);
      }
      CommitKeepsCoherent(s.lk, a.tx.db.attempts, StagedLocks(a.tx), s.clock);
    }
  }

  lemma TickKeepsLockPart(s: System, clock: int)
    requires LockPart(s) && s.clock <= clock
    ensures LockPart(s.(clock := clock))
  {
    if Trusted(s.lk.state, s.degraded.lock) {
      TickKeepsCoherent(s.lk, s.clock, clock);
    }
  }

  /** Actions that at most change the two cache states. */
  predicate StatesOnly(a: SysAction) {
    || a.WorkerRollBack? || a.WorkerCallback? || a.HydrateLockFails? || a.HydrateExpiryFails?
    || a.StopWorker? || a.StartConsuming? || a.LeaveConsuming?
  }

  /** `s'` differs from `s` in cache states only, and trusts no more of them. */
  ghost predicate SameContents(s: System, s': System) {
    && s'.lk == s.lk.(state := s'.lk.state) && s'.ex == s.ex.(state := s'.ex.state)
    && s'.clock == s.clock
    && (Trusted(s'.lk.state, s'.degraded.lock) ==> Trusted(s.lk.state, s.degraded.lock))
    && (Trusted(s'.ex.state, s'.degraded.expiry) ==> Trusted(s.ex.state, s.degraded.expiry))
  }

  /** Demotion and restoration never trust a cache that was not trusted: what a
      retry sequence restores is what it demoted itself. */
  lemma StatesOnlyKeepsContents(s: System, a: SysAction)
    requires Enabled(s, a) && StatesOnly(a)
    ensures SameContents(s, CachesNext(s, a))
  {
  }

  lemma StatesOnlyKeepsLockPart(s: System, a: SysAction)
    requires LockPart(s) && Enabled(s, a) && StatesOnly(a)
    ensures LockPart(CachesNext(s, a))
  {
    StatesOnlyKeepsContents(s, a);
    var s' := CachesNext(s, a);
    StateChangeKeepsLockInv(s.lk, s'.lk.state, s.clock,
                            Trusted(s.lk.state, s.degraded.lock), Trusted(s'.lk.state, s'.degraded.lock));
  }

  /** Actions that leave the lock cache, its table and the clock alone. */
  predicate LeavesLocks(a: SysAction) {
    || a.RecordLogin? || a.GraceLogin? || a.Journal? || a.ApplyExpiryEntry? || a.HydrateExpiryCache?
  }

  lemma LeavesLocksKeepsLockPart(s: System, a: SysAction)
    requires LockPart(s) && Enabled(s, a) && LeavesLocks(a)
    ensures LockPart(CachesNext(s, a))
  {
  }

  lemma StepKeepsLockPart(s: System, a: SysAction)
    requires LockPart(s) && Enabled(s, a) && LockSafe(s, a)
    ensures LockPart(CachesNext(s, a))
  {
    if StatesOnly(a) {
      StatesOnlyKeepsLockPart(s, a);
    } else if LeavesLocks(a) {
      LeavesLocksKeepsLockPart(s, a);
    } else if a.Tick? {
      TickKeepsLockPart(s, a.clock);
    } else if a.WorkerCommit? {
      WorkerCommitKeepsLockPart(s, a);
    } else if a.BackendCommit? {
      BackendCommitKeepsLockPart(s, a);
    } else if a.ApplyLock? {
      ApplyKeepsLockInv(s.lk, a.user, s.clock, Trusted(s.lk.state, s.degraded.lock));
    } else if a.HydrateLock? {
      HydrateKeepsLockInv(s.lk, a.prepared, a.readAt, s.clock);
    }
  }

  /** A commit after which cache and table agree was safe. */
  lemma CoherentCommitIsSafe(s: System, a: SysAction)
    requires LockPart(s) && a.BackendCommit? && Enabled(s, a)
    requires var lk' := CommitAttempts(s.lk, a.tx.db.attempts, StagedLocks(a.tx));
             forall u :: u !in lk'.inflight ==> SameLockout(lk', u, s.clock)
    ensures LockSafe(s, a)
  {
    if Trusted(s.lk.state, s.degraded.lock) {
      var lk' := CommitAttempts(s.lk, a.tx.db.attempts, StagedLocks(a.tx));
      forall u ensures LockKept(s, a.tx, u) {
        BackendCommitLockOk(s, a, u);
        if u !in lk'.inflight {
          assert SameLockout(s.lk, u, s.clock) && SameLockout(lk', u, s.clock);
        } else {
          LiveCommitStaged(s, a, u);
        }
      }
    }
  }

  /** A user whose commit is in flight has no other lock operation. */
  lemma LiveCommitStaged(s: System, a: SysAction, u: Name)
    requires a.BackendCommit? && BackendCommitOk(s, a)
    requires u in s.lk.inflight || u in StagedLocks(a.tx)
    ensures LockKept(s, a.tx, u)
  {
    LockStagedIff(DbOf(s), a.start, a.subid, a.steps, a.tx, u);
  }

  /** A step keeps the lock cache coherent if and only if it is safe. */
  lemma LockPartSurvivesIff(s: System, a: SysAction)
    requires LockPart(s) && Enabled(s, a)
    ensures LockPart(CachesNext(s, a)) <==> LockSafe(s, a)
  {
    if LockSafe(s, a) {
      StepKeepsLockPart(s, a);
    } else if a.BackendCommit? && LockPart(CachesNext(s, a)) && Trusted(s.lk.state, s.degraded.lock) {
      CoherentCommitIsSafe(s, a);
    } else if a.ApplyLock? {
      LateCallbackBreaks(s, a.user);
    }
  }

  lemma LateCallbackBreaks(s: System, u: Name)
    requires LockPart(s) && Trusted(s.lk.state, s.degraded.lock)
    requires u in s.lk.inflight && !Punctual(s.lk, u, s.clock)
    ensures var lk' := ApplyDecision(s.lk, u, s.clock);
            u !in lk'.inflight && lk'.state == s.lk.state && !SameLockout(lk', u, s.clock)
  {
    assert InflightOk(s.lk, u, s.clock);
    AppliedSlots(s.lk, u, s.clock, u);
    ApplyOverflows(s.lk, u, s.clock);
  }

  // ---------------------------------------------------------------------
  // The grace ledger
  // ---------------------------------------------------------------------

  lemma StateChangeKeepsGraceInv(ex: ExpirySide, st: CacheState, log: seq<Event>, k: nat, trusted: bool, trusted': bool)
    requires k <= |log| && GraceInv(ex, log, k, trusted) && (trusted' ==> trusted)
    ensures GraceInv(ex.(state := st), log, k, trusted')
  {
    var ex' := ex.(state := st);
    forall u ensures RowLedger(ex', log, k, u) {
      assert RowLedger(ex, log, k, u);
    }
    forall u | u in ex'.inflight ensures AwaitsCallback(ex', u) {
      assert AwaitsCallback(ex, u);
    }
    forall u | u !in ex'.inflight ensures Accounted(ex', log, k, u, trusted') {
      assert Accounted(ex, log, k, u, trusted);
    }
  }

  /** The grace invariant of a state made of these caches and this pipeline. */
  ghost predicate GraceOk(s: System, p: P.State) {
    && |p.applied| <= |p.written|
    && GraceInv(s.ex, p.written, |p.applied|, Trusted(s.ex.state, s.degraded.expiry))
  }

  lemma RecordLoginKeepsGrace(s: System, e: Event, r: AppendResult)
    requires GracePart(s) && e.kind != KIND_GRACE && P.Enabled(s.p, AppendAction(e, r))
    ensures GraceOk(s, P.Step(s.p, AppendAction(e, r)))
  {
    if !r.Partial? {
      OtherEventKeepsInv(s.ex, s.p.written, |s.p.applied|, e, Trusted(s.ex.state, s.degraded.expiry));
    }
  }

  lemma GraceLoginKeepsGrace(s: System, a: SysAction)
    requires GracePart(s) && a.GraceLogin? && Enabled(s, a)
    ensures GraceOk(CachesNext(s, a), PipelineNext(s, a))
  {
    var e := GraceEvent(s, a.id, a.user, a.flags);
    assert s.ex.state == Ready && FromCache(s.ex, e);
    match a.result
    case Synced => GraceLoginKeepsInv(s.ex, s.p.written, |s.p.applied|, e);
    case Unsynced => StrandedGraceKeepsInv(s.ex, s.p.written, |s.p.applied|, e);
    case Partial(_) =>
  }

  lemma WorkerCommitKeepsGrace(s: System, a: SysAction)
    requires P.Inv(s.p) && GracePart(s) && a.WorkerCommit? && Enabled(s, a)
    ensures GraceOk(CachesNext(s, a), PipelineNext(s, a))
  {
    P.CommitMovesLog(s.p);
    CommitEventKeepsGrace(s, a, PipelineNext(s, a));
  }

  /** The tables follow the log: `p` has applied the pending event, or it had
      been applied before. */
  lemma CommitEventKeepsGrace(s: System, a: SysAction, p: P.State)
    requires GracePart(s) && a.WorkerCommit? && P.HasPending(s.p) && WorkerCommitOk(s, a)
    requires p.written == s.p.written
    requires !FirstTime(s) ==> p.applied == s.p.applied
    requires FirstTime(s) ==>
               && |s.p.applied| < |s.p.written| && s.p.written[|s.p.applied|] == P.PendingEvent(s.p)
               && |p.applied| == |s.p.applied| + 1
    ensures GraceOk(CommitEvent(s, a), p)
  {
    var trusted, k := Trusted(s.ex.state, s.degraded.expiry), |s.p.applied|;
    if FirstTime(s) {
      if P.PendingEvent(s.p).kind == KIND_GRACE {
        PersistKeepsInv(s.ex, s.p.written, k, trusted);
      } else {
        ApplyOtherKeepsInv(s.ex, s.p.written, k, trusted);
      }
    }
  }

  /** The transaction does not change `u`'s row behind the cache's back: its last
      operation on `u` is the one that changed it, or it left the row as it was. */
  ghost predicate RowKept(s: System, tx: Tx, u: Name)
    requires |tx.ops| > 0
  {
    ExpiryCovered(tx.ops[0], u) || RowOf(tx.db.expiry, u) == RowOf(s.ex.rows, u)
  }

  /** What keeps the grace ledger balanced: transactions do not lose the expiry
      half of a staged pair. */
  ghost predicate GraceSafe(s: System, a: SysAction)
    requires Enabled(s, a)
  {
    match a
    case BackendCommit(_, _, _, tx) => forall u :: RowKept(s, tx, u)
    case _ => true
  }

  /** The commit puts in flight exactly what was staged, about users it has
      expiry operations on. */
  lemma StagedExpiriesAre(s: System, a: SysAction, u: Name)
    requires a.BackendCommit? && BackendCommitOk(s, a)
    ensures var d := ExpiryOf(a.tx.staging.entries, u);
            && (u in StagedExpiries(a.tx) <==> !d.Keep?)
            && (u in StagedExpiries(a.tx) ==> StagedExpiries(a.tx)[u] == d && HasExpiryOp(a.tx.ops[0], u))
  {
    var ops := a.tx.ops[0];
    StagedDecisionsAgree(DbOf(s), a.start, a.subid, a.steps, a.tx, u, s.clock);
    if HasExpiryOp(ops, u) {
      var i :| 0 <= i < |ops| && ExpiryOpOn(ops[i], u);
      assert u in UsersOf(ops);
    }
  }

  lemma BackendCommitExpiryOk(s: System, a: SysAction, u: Name)
    requires a.BackendCommit? && BackendCommitOk(s, a)
    ensures ExpiryCommitOk(s.ex, a.tx.db.expiry, StagedExpiries(a.tx), u) <==> RowKept(s, a.tx, u)
  {
    var ops := a.tx.ops[0];
    StagedDecisionsAgree(DbOf(s), a.start, a.subid, a.steps, a.tx, u, s.clock);
    ExpiryStagedIff(DbOf(s), a.start, a.subid, a.steps, a.tx, u);
    if HasExpiryOp(ops, u) {
      var i :| 0 <= i < |ops| && ExpiryOpOn(ops[i], u);
      assert u in UsersOf(ops);
    }
  }

  lemma BackendCommitKeepsGrace(s: System, a: SysAction)
    requires GracePart(s) && a.BackendCommit? && Enabled(s, a) && GraceSafe(s, a)
    ensures GraceOk(CommitBackend(s, a.tx), s.p)
  {
    var rows, decisions := a.tx.db.expiry, StagedExpiries(a.tx);
    forall u ensures ExpiryCommitOk(s.ex, rows, decisions, u) {
      BackendCommitExpiryOk(s, a, u);
    }
    CommitExpiryKeepsInv(s.ex, s.p.written, |s.p.applied|, Trusted(s.ex.state, s.degraded.expiry),
                         rows, decisions);
  }

  lemma HydrateKeepsGrace(s: System, rows: seq<ExpirySlot>)
    requires GracePart(s) && s.ex.inflight == map[] && IsRowSnapshot(s.ex.rows, rows)
    ensures GraceOk(s.(ex := HydrateExpiry(s.ex, rows, s.p.written, Cut(s))), s.p)
  {
    HydrateExpiryKeepsInv(s.ex, s.p.written, |s.p.applied|, rows);
  }

  lemma CrashKeepsGrace(s: System)
    requires GracePart(s)
    ensures GraceOk(LoseMemory(s), s.p)
  {
    LossKeepsInv(s.ex, s.p.written, |s.p.applied|, Trusted(s.ex.state, s.degraded.expiry));
  }

  lemma StatesOnlyKeepsGrace(s: System, a: SysAction)
    requires GracePart(s) && Enabled(s, a) && StatesOnly(a)
    ensures GraceOk(CachesNext(s, a), s.p)
  {
    StatesOnlyKeepsContents(s, a);
    var s' := CachesNext(s, a);
    StateChangeKeepsGraceInv(s.ex, s'.ex.state, s.p.written, |s.p.applied|,
                             Trusted(s.ex.state, s.degraded.expiry), Trusted(s'.ex.state, s'.degraded.expiry));
  }

  /** Actions after which the log and what is applied of it are the same. */
  predicate KeepsLog(a: SysAction) {
    !a.RecordLogin? && !a.GraceLogin? && !a.WorkerCommit?
  }

  lemma PipelineKeepsLog(s: System, a: SysAction)
    requires Enabled(s, a) && KeepsLog(a)
    ensures PipelineNext(s, a).written == s.p.written && PipelineNext(s, a).applied == s.p.applied
  {
    var step := PipelineStep(s, a);
    if step.Some? {
      P.LogMovesOnlyBy(s.p, step.value);
    }
  }

  lemma CachesKeepGrace(s: System, a: SysAction)
    requires GracePart(s) && Enabled(s, a) && KeepsLog(a) && GraceSafe(s, a)
    ensures GraceOk(CachesNext(s, a), s.p)
  {
    if StatesOnly(a) {
      StatesOnlyKeepsGrace(s, a);
    } else if a.BackendCommit? {
      BackendCommitKeepsGrace(s, a);
    } else if a.ApplyExpiryEntry? {
      ApplyExpiryKeepsInv(s.ex, s.p.written, |s.p.applied|, a.user, Trusted(s.ex.state, s.degraded.expiry));
    } else if a.HydrateExpiryCache? {
      HydrateKeepsGrace(s, a.rows);
    } else if a.Crash? {
      CrashKeepsGrace(s);
    }
  }

  lemma StepKeepsGracePart(s: System, a: SysAction)
    requires P.Inv(s.p) && GracePart(s) && Enabled(s, a) && GraceSafe(s, a)
    ensures GracePart(Step(s, a))
  {
    if a.RecordLogin? {
      RecordLoginKeepsGrace(s, a.event, a.result);
    } else if a.GraceLogin? {
      GraceLoginKeepsGrace(s, a);
    } else if a.WorkerCommit? {
      WorkerCommitKeepsGrace(s, a);
    } else {
      CachesKeepGrace(s, a);
      PipelineKeepsLog(s, a);
    }
  }

  // ---------------------------------------------------------------------
  // Whole runs
  // ---------------------------------------------------------------------

  lemma {:induction false} RunsKeepPipeline(s: System, acts: seq<SysAction>, s': System)
    requires P.Inv(s.p) && Reaches(s, acts, s')
    ensures P.Inv(s'.p)
    decreases |acts|
  {
    if acts != [] {
      StepKeepsPipeline(s, acts[0]);
      RunsKeepPipeline(Step(s, acts[0]), acts[1..], s');
    }
  }

  ghost predicate LockSafeRun(s: System, acts: seq<SysAction>, s': System)
    decreases |acts|
  {
    if acts == [] then s == s'
    else Enabled(s, acts[0]) && LockSafe(s, acts[0]) && LockSafeRun(Step(s, acts[0]), acts[1..], s')
  }

  lemma {:induction false} LockSafeRunsKeepLockPart(s: System, acts: seq<SysAction>, s': System)
    requires LockPart(s) && LockSafeRun(s, acts, s')
    ensures LockPart(s')
    decreases |acts|
  {
    if acts != [] {
      StepKeepsLockPart(s, acts[0]);
      LockSafeRunsKeepLockPart(Step(s, acts[0]), acts[1..], s');
    }
  }

  ghost predicate GraceSafeRun(s: System, acts: seq<SysAction>, s': System)
    decreases |acts|
  {
    if acts == [] then s == s'
    else Enabled(s, acts[0]) && GraceSafe(s, acts[0]) && GraceSafeRun(Step(s, acts[0]), acts[1..], s')
  }

  lemma {:induction false} GraceSafeRunsKeepGracePart(s: System, acts: seq<SysAction>, s': System)
    requires P.Inv(s.p) && GracePart(s) && GraceSafeRun(s, acts, s')
    ensures P.Inv(s'.p) && GracePart(s')
    decreases |acts|
  {
    if acts != [] {
      StepKeepsPipeline(s, acts[0]);
      StepKeepsGracePart(s, acts[0]);
      GraceSafeRunsKeepGracePart(Step(s, acts[0]), acts[1..], s');
    }
  }

  lemma InitHoldsPipeline(clock: int)
    ensures P.Inv(Init(clock).p)
  {
    P.InitKeepsRingInv();
  }

  lemma InitHoldsLock(clock: int)
    ensures LockPart(Init(clock))
  {
  }

  lemma InitHoldsGrace(clock: int)
    ensures GracePart(Init(clock))
  {
    var s := Init(clock);
    assert forall u :: CachedRow(s.ex.slots, u) == None;
  }
}
