/** Two kinds of runs that are safe throughout: those that record the failures
    of each user in order under one lockout length, and those that keep every
    password row once it is written.
 */
module SystemOrder {
  import opened AuthTypes
  import opened ExpiryCache
  import opened LoginTables
  import opened Transactions
  import opened LockCoherence
  import opened GraceLedger
  import opened AuthSystem
  import opened SystemInvariant
  import opened SystemTheorems
  import P = EventProtocol

  // ---------------------------------------------------------------------
  // Failures in order
  // ---------------------------------------------------------------------

  /** A failure is recorded by a transaction that began no earlier than the one
      that recorded the last. */
  predicate InOrder(attempts: map<Name, AttemptRow>, op: TxOp, start: int) {
    op.RecordFailure? && op.user in attempts ==> attempts[op.user].lastFail <= start
  }

  ghost predicate OrderedStep(s: System, a: SysAction, lockoutLen: int)
    requires Enabled(s, a)
  {
    match a
    case WorkerCommit(start, policy, _) =>
      FirstTime(s) && WorkerOp(s, a).Some? ==>
        policy.lockoutLen == lockoutLen && InOrder(s.lk.attempts, WorkerOp(s, a).value, start)
    case BackendCommit(start, _, _, tx) =>
      && FixedLength(tx.ops[0], lockoutLen)
      && (forall i :: 0 <= i < |tx.ops[0]| ==> InOrder(s.lk.attempts, tx.ops[0][i], start))
      && (forall u :: LockCovered(tx.ops[0], u))
    case _ => true
  }

  ghost predicate OrderPart(s: System, lockoutLen: int) {
    OrderInv(s.lk, s.clock, lockoutLen, Trusted(s.lk.state, s.degraded.lock))
  }

  lemma OrderedStepIsSafe(s: System, a: SysAction, lockoutLen: int)
    requires OrderPart(s, lockoutLen) && Enabled(s, a) && OrderedStep(s, a, lockoutLen)
    ensures LockSafe(s, a)
  {
    if a.ApplyLock? && Trusted(s.lk.state, s.degraded.lock) {
      OrderMeansPunctual(s.lk, a.user, s.clock, lockoutLen);
    }
  }

  lemma BackendCommitRowInOrder(s: System, a: SysAction, lockoutLen: int, u: Name)
    requires a.BackendCommit? && Enabled(s, a) && OrderedStep(s, a, lockoutLen)
    ensures RowInOrder(RowOf(s.lk.attempts, u), RowOf(a.tx.db.attempts, u), a.start, lockoutLen)
  {
    TransactionIsItsSurvivors(DbOf(s), a.start, a.subid, a.steps, a.tx, u);
    RowsComeFrom(DbOf(s), a.tx.ops[0], a.start, u, lockoutLen);
    ChangedRowHasFailure(DbOf(s), a.tx.ops[0], a.start, u);
  }

  lemma BackendCommitKeepsOrder(s: System, a: SysAction, lockoutLen: int)
    requires LockPart(s) && OrderPart(s, lockoutLen)
    requires a.BackendCommit? && Enabled(s, a) && OrderedStep(s, a, lockoutLen)
    ensures OrderPart(CachesNext(s, a), lockoutLen)
  {
    forall u ensures CommitOk(s.lk, a.tx.db.attempts, StagedLocks(a.tx), s.clock, u) {
      BackendCommitLockOk(s, a, u);
    }
    forall u ensures RowInOrder(RowOf(s.lk.attempts, u), RowOf(a.tx.db.attempts, u), a.start, lockoutLen) {
      BackendCommitRowInOrder(s, a, lockoutLen, u);
    }
    CommitKeepsOrder(s.lk, a.tx.db.attempts, StagedLocks(a.tx), a.start, s.clock, lockoutLen,
                     Trusted(s.lk.state, s.degraded.lock));
  }

  lemma WorkerCommitKeepsOrder(s: System, a: SysAction, lockoutLen: int)
    requires LockPart(s) && OrderPart(s, lockoutLen)
    requires a.WorkerCommit? && Enabled(s, a) && OrderedStep(s, a, lockoutLen)
    ensures OrderPart(CachesNext(s, a), lockoutLen)
  {
    if FirstTime(s) && WorkerOp(s, a).Some? {
      var op := WorkerOp(s, a).value;
      var after := Effect(DbOf(s), op, a.start);
      var decisions := map[op.user := StagedPair(after, op).lock.value];
      forall u ensures CommitOk(s.lk, after.attempts, decisions, s.clock, u) {
        WorkerCommitLockOk(s, a, u);
      }
      CommitKeepsOrder(s.lk, after.attempts, decisions, a.start, s.clock, lockoutLen,
                       Trusted(s.lk.state, s.degraded.lock));
    }
  }

  lemma StatesOnlyKeepsOrder(s: System, a: SysAction, lockoutLen: int)
    requires OrderPart(s, lockoutLen) && Enabled(s, a) && StatesOnly(a)
    ensures OrderPart(CachesNext(s, a), lockoutLen)
  {
    StatesOnlyKeepsContents(s, a);
    var s' := CachesNext(s, a);
    if Trusted(s'.lk.state, s'.degraded.lock) {
      forall u | u in s'.lk.inflight ensures NoneOutlives(s'.lk, u, s'.clock) {
        assert NoneOutlives(s.lk, u, s.clock);
      }
    }
  }

  lemma StepKeepsOrder(s: System, a: SysAction, lockoutLen: int)
    requires LockPart(s) && OrderPart(s, lockoutLen) && Enabled(s, a) && OrderedStep(s, a, lockoutLen)
    ensures OrderPart(CachesNext(s, a), lockoutLen)
  {
    if StatesOnly(a) {
      StatesOnlyKeepsOrder(s, a, lockoutLen);
    } else if a.WorkerCommit? {
      WorkerCommitKeepsOrder(s, a, lockoutLen);
    } else if a.BackendCommit? {
      BackendCommitKeepsOrder(s, a, lockoutLen);
    } else if a.ApplyLock? {
      ApplyKeepsOrder(s.lk, a.user, s.clock, lockoutLen, Trusted(s.lk.state, s.degraded.lock));
    } else if a.Tick? && Trusted(s.lk.state, s.degraded.lock) {
      forall u | u in s.lk.inflight ensures NoneOutlives(s.lk, u, a.clock) {
        assert NoneOutlives(s.lk, u, s.clock);
      }
    }
  }

  ghost predicate OrderedRun(s: System, acts: seq<SysAction>, s': System, lockoutLen: int)
    decreases |acts|
  {
    if acts == [] then s == s'
    else && Enabled(s, acts[0]) && OrderedStep(s, acts[0], lockoutLen)
         && OrderedRun(Step(s, acts[0]), acts[1..], s', lockoutLen)
  }

  lemma {:induction false} OrderedRunsAreSafe(s: System, acts: seq<SysAction>, s': System, lockoutLen: int)
    requires LockPart(s) && OrderPart(s, lockoutLen) && OrderedRun(s, acts, s', lockoutLen)
    ensures LockSafeRun(s, acts, s')
    decreases |acts|
  {
    if acts != [] {
      OrderedStepIsSafe(s, acts[0], lockoutLen);
      StepKeepsLockPart(s, acts[0]);
      StepKeepsOrder(s, acts[0], lockoutLen);
      OrderedRunsAreSafe(Step(s, acts[0]), acts[1..], s', lockoutLen);
    }
  }

  /** In every run with one lockout length, failures in order and no lock half
      lost, every callback is punctual and the lock cache coherent. */
  lemma {:induction false} OrderedRunsStayCoherent(clock: int, lockoutLen: int, acts: seq<SysAction>, s: System)
    requires OrderedRun(Init(clock), acts, s, lockoutLen)
    ensures LockSafeRun(Init(clock), acts, s) && LockoutsAgree(s)
  {
    InitHoldsLock(clock);
    OrderedRunsAreSafe(Init(clock), acts, s, lockoutLen);
    LockCacheIsCoherent(clock, acts, s);
  }

  // ---------------------------------------------------------------------
  // Rows that are kept
  // ---------------------------------------------------------------------

  ghost predicate KeptStep(a: SysAction) {
    a.BackendCommit? ==>
      |a.tx.ops| > 0 && KeepsRows(a.tx.ops[0]) && forall u :: ExpiryCovered(a.tx.ops[0], u)
  }

  ghost predicate KeptPart(s: System) {
    forall u :: NotNewer(s.ex, s.p.written, u)
  }

  lemma KeptStepIsSafe(s: System, a: SysAction)
    requires Enabled(s, a) && KeptStep(a)
    ensures GraceSafe(s, a)
  {
  }

  /** Whatever its clock reads, a password change writes a newer generation. */
  lemma KeptCommitIsNewer(s: System, a: SysAction, u: Name)
    requires a.BackendCommit? && BackendCommitOk(s, a) && KeepsRows(a.tx.ops[0])
    requires u in StagedExpiries(a.tx)
    ensures Newer(s.ex, StagedExpiries(a.tx)[u], u)
  {
    StagedExpiriesAre(s, a, u);
    StagedDecisionsAgree(DbOf(s), a.start, a.subid, a.steps, a.tx, u, s.clock);
    TransactionIsItsSurvivors(DbOf(s), a.start, a.subid, a.steps, a.tx, u);
    KeptGenerationsGrow(DbOf(s), a.tx.ops[0], a.start, u);
  }

  /** So no event is about it yet, and its allowance is the grace it writes. */
  lemma BackendCommitKeepsKept(s: System, a: SysAction, u: Name)
    requires NotNewer(s.ex, s.p.written, u) && a.BackendCommit? && BackendCommitOk(s, a)
    requires KeepsRows(a.tx.ops[0]) && ExpiryCovered(a.tx.ops[0], u)
    ensures NotNewer(CommitBackend(s, a.tx).ex, s.p.written, u)
    ensures u in StagedExpiries(a.tx) ==> AllowsJust(CommitBackend(s, a.tx).ex, StagedExpiries(a.tx)[u], u)
  {
    BackendCommitExpiryOk(s, a, u);
    if u in StagedExpiries(a.tx) {
      KeptCommitIsNewer(s, a, u);
    }
    CommitKeepsNotNewer(s.ex, s.p.written, Cut(s), a.tx.db.expiry, StagedExpiries(a.tx), u);
  }

  lemma GraceLoginKeepsKept(s: System, a: SysAction, u: Name)
    requires KeptPart(s) && GracePart(s) && Enabled(s, a) && a.GraceLogin?
    ensures NotNewer(Step(s, a).ex, Step(s, a).p.written, u)
  {
    assert NotNewer(s.ex, s.p.written, u);
    if a.result.Synced? {
      TakeGraceChangesOneRow(s.ex.slots, a.user, u);
    }
  }

  lemma WorkerCommitKeepsKept(s: System, a: SysAction, u: Name)
    requires KeptPart(s) && Enabled(s, a) && a.WorkerCommit?
    ensures NotNewer(Step(s, a).ex, Step(s, a).p.written, u)
  {
    assert NotNewer(s.ex, s.p.written, u);
  }

  lemma ApplyKeepsKept(s: System, a: SysAction, u: Name)
    requires KeptPart(s) && GracePart(s) && Enabled(s, a) && a.ApplyExpiryEntry?
    ensures NotNewer(CachesNext(s, a).ex, s.p.written, u)
  {
    assert NotNewer(s.ex, s.p.written, u);
    assert AwaitsCallback(s.ex, a.user);
    AppliedExpirySlots(s.ex, s.p.written, Cut(s), a.user, u);
    AppliedExpirySlots(s.ex, s.p.written, Cut(s), a.user, a.user);
  }

  lemma HydrateKeepsKept(s: System, a: SysAction, u: Name)
    requires KeptPart(s) && GracePart(s) && Enabled(s, a) && a.HydrateExpiryCache?
    ensures NotNewer(CachesNext(s, a).ex, s.p.written, u)
  {
    assert NotNewer(s.ex, s.p.written, u);
    forall i | 0 <= i < |a.rows| ensures Occupied(a.rows[i].user) {
      assert RowLedger(s.ex, s.p.written, |s.p.applied|, a.rows[i].user);
    }
    HydrationInstallsRows(a.rows, u);
  }

  lemma StepKeepsKept(s: System, a: SysAction, u: Name)
    requires KeptPart(s) && GracePart(s) && Enabled(s, a) && KeptStep(a)
    ensures NotNewer(Step(s, a).ex, Step(s, a).p.written, u)
  {
    assert NotNewer(s.ex, s.p.written, u);
    if a.GraceLogin? {
      GraceLoginKeepsKept(s, a, u);
    } else if a.WorkerCommit? {
      WorkerCommitKeepsKept(s, a, u);
    } else if !a.RecordLogin? {
      PipelineKeepsLog(s, a);
      QuietStepKeepsKept(s, a, u);
    }
  }

  lemma QuietStepKeepsKept(s: System, a: SysAction, u: Name)
    requires KeptPart(s) && GracePart(s) && Enabled(s, a) && KeptStep(a) && KeepsLog(a)
    ensures NotNewer(CachesNext(s, a).ex, s.p.written, u)
  {
    assert NotNewer(s.ex, s.p.written, u);
    if a.ApplyExpiryEntry? {
      ApplyKeepsKept(s, a, u);
    } else if a.HydrateExpiryCache? {
      HydrateKeepsKept(s, a, u);
    } else if a.BackendCommit? {
      BackendCommitKeepsKept(s, a, u);
    }
  }

  ghost predicate KeptRun(s: System, acts: seq<SysAction>, s': System)
    decreases |acts|
  {
    if acts == [] then s == s'
    else Enabled(s, acts[0]) && KeptStep(acts[0]) && KeptRun(Step(s, acts[0]), acts[1..], s')
  }

  lemma KeptStepKeepsParts(s: System, a: SysAction)
    requires P.Inv(s.p) && GracePart(s) && KeptPart(s) && Enabled(s, a) && KeptStep(a)
    ensures P.Inv(Step(s, a).p) && GracePart(Step(s, a)) && KeptPart(Step(s, a))
  {
    StepKeepsPipeline(s, a);
    StepKeepsGracePart(s, a);
    forall u ensures NotNewer(Step(s, a).ex, Step(s, a).p.written, u) {
      StepKeepsKept(s, a, u);
    }
  }

  lemma {:induction false} KeptRunsKeepParts(s: System, acts: seq<SysAction>, s': System)
    requires P.Inv(s.p) && GracePart(s) && KeptPart(s) && KeptRun(s, acts, s')
    ensures GraceSafeRun(s, acts, s') && P.Inv(s'.p) && GracePart(s') && KeptPart(s')
    decreases |acts|
  {
    if acts != [] {
      KeptStepIsSafe(s, acts[0]);
      KeptStepKeepsParts(s, acts[0]);
      KeptRunsKeepParts(Step(s, acts[0]), acts[1..], s');
    }
  }

  lemma InitIsKept(clock: int)
    ensures P.Inv(Init(clock).p) && GracePart(Init(clock)) && KeptPart(Init(clock))
  {
    InitHoldsPipeline(clock);
    InitHoldsGrace(clock);
    assert forall v :: CachedRow(Init(clock).ex.slots, v) == None;
  }

  /** In every run that keeps its password rows and loses no expiry half, grace
      is conserved however the clock behaves. */
  lemma {:induction false} KeptRunsConserveGrace(clock: int, acts: seq<SysAction>, s: System, u: Name)
    requires KeptRun(Init(clock), acts, s)
    ensures GraceSafeRun(Init(clock), acts, s) && GraceAccounted(s, u)
  {
    InitIsKept(clock);
    KeptRunsKeepParts(Init(clock), acts, s);
    GraceIsConserved(clock, acts, s, u);
  }

  /** No hydration over a pending grace event, and no grace login whose sync
      failed. */
  ghost predicate SettledStep(s: System, a: SysAction)
    requires Enabled(s, a)
  {
    a.HydrateExpiryCache? || a.GraceLogin? ==> CleanStep(s, a)
  }

  /** Then callbacks and crashes are clean by themselves: no event can be about a
      row that still awaits its callback. */
  lemma KeptStepIsClean(s: System, a: SysAction)
    requires GracePart(s) && KeptPart(s) && Enabled(s, a) && KeptStep(a) && SettledStep(s, a)
    ensures CleanStep(s, a)
  {
    if a.ApplyExpiryEntry? {
      assert NotNewer(s.ex, s.p.written, a.user) && AwaitsCallback(s.ex, a.user);
      if s.ex.inflight[a.user].SetExpiry? {
        NoneOfNewer(s.ex, s.p.written, Cut(s), a.user, s.ex.inflight[a.user].generation);
      }
    } else if a.Crash? {
      forall u | u in s.ex.inflight && u in s.ex.rows ensures PendingOf(s, u) <= s.ex.rows[u].grace {
        assert NotNewer(s.ex, s.p.written, u) && AwaitsCallback(s.ex, u);
        NoneOfNewer(s.ex, s.p.written, Cut(s), u, s.ex.rows[u].generation);
      }
    }
  }

  ghost predicate SettledRun(s: System, acts: seq<SysAction>, s': System)
    decreases |acts|
  {
    if acts == [] then s == s'
    else && Enabled(s, acts[0]) && KeptStep(acts[0]) && SettledStep(s, acts[0])
         && SettledRun(Step(s, acts[0]), acts[1..], s')
  }

  lemma {:induction false} SettledRunsAreClean(s: System, acts: seq<SysAction>, s': System)
    requires P.Inv(s.p) && GracePart(s) && KeptPart(s) && SettledRun(s, acts, s')
    ensures CleanRun(s, acts, s') && GracePart(s') && KeptPart(s')
    decreases |acts|
  {
    if acts != [] {
      KeptStepIsClean(s, acts[0]);
      KeptStepKeepsParts(s, acts[0]);
      SettledRunsAreClean(Step(s, acts[0]), acts[1..], s');
    }
  }

  /** In every run that keeps its password rows, loses no expiry half, hydrates
      over no pending grace event and meets no failed sync on a grace login, no
      password is used for more grace logins than it allows, also while its
      callback is outstanding, and the contradiction error is never met. */
  lemma {:induction false} SettledRunsNeverOverAdmit(clock: int, acts: seq<SysAction>, s: System, u: Name)
    requires SettledRun(Init(clock), acts, s)
    ensures u in s.ex.rows ==>
              u in s.ex.allowance && CountGrace(s.p.written, u, s.ex.rows[u].generation) <= s.ex.allowance[u]
    ensures GraceExact(s, u) && !Contradicted(s)
  {
    InitIsKept(clock);
    SettledRunsAreClean(Init(clock), acts, s);
    CleanRunsNeverOverAdmit(clock, acts, s, u);
    if u in s.ex.rows && u in s.ex.inflight {
      assert NotNewer(s.ex, s.p.written, u) && RowLedger(s.ex, s.p.written, |s.p.applied|, u);
      NoneOfNewer(s.ex, s.p.written, Cut(s), u, s.ex.rows[u].generation);
    }
  }
}
