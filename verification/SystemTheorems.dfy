/** What holds in every run of the whole system. */
module SystemTheorems {
  import opened AuthTypes
  import opened LockCache
  import opened ExpiryCache
  import opened LoginTables
  import opened Transactions
  import opened LockCoherence
  import opened GraceLedger
  import opened AuthSystem
  import opened SystemInvariant
  import R = StuckJournal
  import P = EventProtocol

  // ---------------------------------------------------------------------
  // The pipeline inside the system
  // ---------------------------------------------------------------------

  /** The pipeline steps one action stands for. */
  lemma StepProjects(s: System, a: SysAction) returns (steps: seq<P.Action>)
    requires Enabled(s, a)
    ensures P.Reaches(s.p, steps, PipelineNext(s, a))
  {
    var step := PipelineStep(s, a);
    if step.None? {
      steps := [];
    } else {
      steps := [step.value];
      R.ReachesStep(s.p, step.value);
      if a.WorkerCallback? && EndsIncomplete(s) {
        var p1 := P.Step(s.p, P.CommitCallback);
        R.ReachesStep(p1, P.ReturnToHydration);
        R.ReachesConcat(s.p, steps, p1, [P.ReturnToHydration], PipelineNext(s, a));
        steps := steps + [P.ReturnToHydration];
      }
    }
  }

  /** Every run of the system is, for the pipeline, one of the pipeline's own. */
  lemma {:induction false} RunsProject(s: System, acts: seq<SysAction>, s': System) returns (steps: seq<P.Action>)
    requires Reaches(s, acts, s')
    ensures P.Reaches(s.p, steps, s'.p)
    decreases |acts|
  {
    if acts == [] {
      steps := [];
    } else {
      var next := Step(s, acts[0]);
      var one := StepProjects(s, acts[0]);
      var rest := RunsProject(next, acts[1..], s');
      R.ReachesConcat(s.p, one, next.p, rest, s'.p);
      steps := one + rest;
    }
  }

  /** Events are applied exactly once and in order in every run of the whole
      system: logins, backend transactions, retries and hydrations included. */
  lemma {:induction false} SystemAppliesExactlyOnce(clock: int, acts: seq<SysAction>, s: System)
    requires Reaches(Init(clock), acts, s)
    ensures s.p.applied <= s.p.written && P.DistinctIds(s.p.applied) && s.p.removed <= s.p.applied
    ensures s.p.processing.None? && s.p.active.records == [] && s.p.active.lost == [] ==>
              s.p.applied == s.p.written
  {
    var steps := RunsProject(Init(clock), acts, s);
    P.AppliedExactlyOnceInOrder(steps, s.p);
  }

  // ---------------------------------------------------------------------
  // The lock cache
  // ---------------------------------------------------------------------

  /** The live lockouts the cache reports are those of the table. */
  ghost predicate LockoutsAgree(s: System) {
    s.lk.state == Ready ==>
      forall u :: u !in s.lk.inflight ==>
        LiveAt(s.lk.slots, u, s.clock) == LiveOnly(UntilOf(RowOf(s.lk.attempts, u)), s.clock)
  }

  /** In every safe run of failures, successes, forced clears, nested savepoints,
      hydrations, retries, crashes and clock advances: whenever the lock cache
      is Ready and no commit of a user is waiting for its callback, the live
      lockout cached for that user is the live lockout of its row. */
  lemma {:induction false} LockCacheIsCoherent(clock: int, acts: seq<SysAction>, s: System)
    requires LockSafeRun(Init(clock), acts, s)
    ensures LockoutsAgree(s)
  {
    InitHoldsLock(clock);
    LockSafeRunsKeepLockPart(Init(clock), acts, s);
    InvMeansLockoutsAgree(s);
  }

  lemma InvMeansLockoutsAgree(s: System)
    requires LockPart(s)
    ensures LockoutsAgree(s)
  {
    if s.lk.state == Ready {
      forall u | u !in s.lk.inflight
        ensures LiveAt(s.lk.slots, u, s.clock) == LiveOnly(UntilOf(RowOf(s.lk.attempts, u)), s.clock)
      {
        assert SameLockout(s.lk, u, s.clock);
      }
    }
  }

  /** The conditions are exact: from a coherent state with a Ready cache, cache
      and table still agree after a step if and only if the step is safe. */
  lemma CoherenceSurvivesIff(s: System, a: SysAction)
    requires LockPart(s) && s.lk.state == Ready && Enabled(s, a)
    ensures LockoutsAgree(Step(s, a)) <==> LockSafe(s, a)
  {
    if LockSafe(s, a) {
      StepKeepsLockPart(s, a);
      InvMeansLockoutsAgree(Step(s, a));
    } else if a.ApplyLock? {
      LateCallbackBreaks(s, a.user);
    } else if a.BackendCommit? && LockoutsAgree(Step(s, a)) {
      var lk' := CommitAttempts(s.lk, a.tx.db.attempts, StagedLocks(a.tx));
      assert Step(s, a).lk == lk' && Step(s, a).clock == s.clock;
      forall u | u !in lk'.inflight ensures SameLockout(lk', u, s.clock) {
      }
      CoherentCommitIsSafe(s, a);
    }
  }

  /** Cache, log and table account for every grace login of `u`'s password. */
  ghost predicate GraceAccounted(s: System, u: Name) {
    && |s.p.applied| <= |s.p.written|
    && (s.ex.state == Ready && u !in s.ex.inflight && u in s.ex.rows ==>
          var cached, row, log := CachedRow(s.ex.slots, u), s.ex.rows[u], s.p.written;
          && cached.Some? && cached.value.generation == row.generation
          && cached.value.mustChangeBy == row.mustChangeBy
          && cached.value.grace + Pending(log, |s.p.applied|, u, row.generation) == row.grace + SlackOf(s.ex, u)
          && u in s.ex.allowance
          && CountGrace(log, u, row.generation) + cached.value.grace == s.ex.allowance[u] + SlackOf(s.ex, u))
    && (s.ex.state == Ready && u !in s.ex.inflight && u !in s.ex.rows ==> CachedRow(s.ex.slots, u).None?)
  }

  /** Grace conservation, in every safe run and for every user whose commit is not
      waiting for its callback: cached plus pending equals table plus slack, and
      recorded logins plus what the cache offers equals allowance plus slack. */
  lemma {:induction false} GraceIsConserved(clock: int, acts: seq<SysAction>, s: System, u: Name)
    requires GraceSafeRun(Init(clock), acts, s)
    ensures GraceAccounted(s, u)
  {
    InitHoldsPipeline(clock);
    InitHoldsGrace(clock);
    GraceSafeRunsKeepGracePart(Init(clock), acts, s);
    InvMeansGraceAccounted(s, u);
  }

  lemma InvMeansGraceAccounted(s: System, u: Name)
    requires GracePart(s)
    ensures GraceAccounted(s, u)
  {
    if s.ex.state == Ready && u !in s.ex.inflight {
      assert Accounted(s.ex, s.p.written, |s.p.applied|, u, true);
      if u in s.ex.rows {
        GraceBalance(s.ex, s.p.written, |s.p.applied|, u);
      }
    }
  }

  /** Whoever is accounted for before and after a commit that staged nothing for
      it has the same row. */
  lemma AccountedTwiceSameRow(s: System, s': System, u: Name)
    requires GraceAccounted(s, u) && GraceAccounted(s', u)
    requires s.ex.state == Ready && s'.ex.state == Ready && u !in s.ex.inflight && u !in s'.ex.inflight
    requires s'.ex.slots == s.ex.slots && s'.ex.slack == s.ex.slack
    requires s'.p.written == s.p.written && s'.p.applied == s.p.applied
    ensures RowOf(s'.ex.rows, u) == RowOf(s.ex.rows, u)
  {
  }

  /** The condition is exact: from a balanced state with a Ready cache, every
      account still balances after a step if and only if the step is safe. */
  lemma ConservationSurvivesIff(s: System, a: SysAction)
    requires P.Inv(s.p) && GracePart(s) && s.ex.state == Ready && Enabled(s, a)
    ensures (forall u :: GraceAccounted(Step(s, a), u)) <==> GraceSafe(s, a)
  {
    if GraceSafe(s, a) {
      StepKeepsGracePart(s, a);
      forall u ensures GraceAccounted(Step(s, a), u) {
        InvMeansGraceAccounted(Step(s, a), u);
      }
    } else if forall u :: GraceAccounted(Step(s, a), u) {
      forall u ensures RowKept(s, a.tx, u) {
        AccountedCommitKeepsRow(s, a, u);
      }
    }
  }

  lemma AccountedCommitKeepsRow(s: System, a: SysAction, u: Name)
    requires GracePart(s) && s.ex.state == Ready && a.BackendCommit? && Enabled(s, a)
    requires GraceAccounted(Step(s, a), u)
    ensures RowKept(s, a.tx, u)
  {
    StagedExpiriesAre(s, a, u);
    ExpiryStagedIff(DbOf(s), a.start, a.subid, a.steps, a.tx, u);
    if u !in StagedExpiries(a.tx) && HasExpiryOp(a.tx.ops[0], u) {
      var i :| 0 <= i < |a.tx.ops[0]| && ExpiryOpOn(a.tx.ops[0][i], u);
      assert LockFree(s, a.tx.ops[0][i]);
      InvMeansGraceAccounted(s, u);
      AccountedTwiceSameRow(s, Step(s, a), u);
    }
  }

  // ---------------------------------------------------------------------
  // Exact accounts
  // ---------------------------------------------------------------------

  /** What the cache offers `u` and what the journal holds against it is what the
      table has. */
  ghost predicate AccountExact(s: System, u: Name) {
    match CachedRow(s.ex.slots, u)
    case None => u !in s.ex.rows
    case Some(c) =>
      && u in s.ex.rows && c.generation == s.ex.rows[u].generation && c.mustChangeBy == s.ex.rows[u].mustChangeBy
      && c.grace + Pending(s.p.written, Cut(s), u, c.generation) == s.ex.rows[u].grace
  }

  /** The accounts of a trusted cache are exact, commits in flight aside. */
  ghost predicate AccountsExact(s: System) {
    Trusted(s.ex.state, s.degraded.expiry) ==>
      forall u :: u !in s.ex.inflight ==> AccountExact(s, u)
  }

  /** Pending grace events of the row `u` has in the table. */
  ghost function PendingOf(s: System, u: Name): nat
    requires u in s.ex.rows
  {
    Pending(s.p.written, Cut(s), u, s.ex.rows[u].generation)
  }

  /** The ways in which more is promised than the table has are absent: hydration
      and callbacks find no grace event of the row they install pending, no grace
      login meets a failed sync, transactions lose no expiry half, and a crash
      loses no callback of a row with more pending events than grace. */
  ghost predicate CleanStep(s: System, a: SysAction)
    requires Enabled(s, a)
  {
    match a
    case HydrateExpiryCache(_) => forall u :: u in s.ex.rows ==> PendingOf(s, u) == 0
    case GraceLogin(_, user, _, result) => result.Unsynced? ==> user in s.ex.inflight
    case ApplyExpiryEntry(user) =>
      s.ex.inflight[user].SetExpiry? ==>
        Pending(s.p.written, Cut(s), user, s.ex.inflight[user].generation) == 0
    case BackendCommit(_, _, _, _) => GraceSafe(s, a)
    case Crash => forall u :: u in s.ex.inflight && u in s.ex.rows ==> PendingOf(s, u) <= s.ex.rows[u].grace
    case _ => true
  }

  ghost predicate NoSlack(s: System) {
    forall u :: u in s.ex.rows && u !in s.ex.inflight ==> SlackOf(s.ex, u) == 0
  }

  /** For a trusted cache, exact accounts and no slack are the same. */
  lemma ExactMeansNoSlack(s: System)
    requires GracePart(s) && Trusted(s.ex.state, s.degraded.expiry)
    ensures AccountsExact(s) <==> NoSlack(s)
  {
    var k := |s.p.applied|;
    forall u | u !in s.ex.inflight
      ensures AccountExact(s, u) <==> (u in s.ex.rows ==> SlackOf(s.ex, u) == 0)
    {
      assert Accounted(s.ex, s.p.written, k, u, true);
    }
  }

  lemma BackendCommitSlack(s: System, a: SysAction)
    requires a.BackendCommit? && Enabled(s, a) && NoSlack(s) && GraceSafe(s, a)
    ensures NoSlack(Step(s, a))
  {
    forall u | u in a.tx.db.expiry && u !in CommitBackend(s, a.tx).ex.inflight ensures SlackOf(s.ex, u) == 0 {
      BackendCommitExpiryOk(s, a, u);
      assert RowKept(s, a.tx, u);
    }
  }

  lemma WorkerCommitSlack(s: System, a: SysAction)
    requires a.WorkerCommit? && Enabled(s, a) && NoSlack(s)
    ensures NoSlack(Step(s, a))
  {
    forall u | u in Step(s, a).ex.rows && u !in s.ex.inflight ensures SlackOf(s.ex, u) == 0 {
      assert u in s.ex.rows;
    }
  }

  lemma CallbackSlack(s: System, a: SysAction)
    requires a.ApplyExpiryEntry? && Enabled(s, a) && NoSlack(s) && GracePart(s)
    ensures NoSlack(Step(s, a)) <==> CleanStep(s, a)
  {
    var s' := Step(s, a);
    assert AwaitsCallback(s.ex, a.user);
    assert SlackOf(s'.ex, a.user) == if s.ex.inflight[a.user].SetExpiry?
                                     then Pending(s.p.written, Cut(s), a.user, s.ex.inflight[a.user].generation)
                                     else SlackOf(s.ex, a.user);
    forall u | u != a.user ensures SlackOf(s'.ex, u) == SlackOf(s.ex, u) {
    }
  }

  lemma HydrationSlack(s: System, a: SysAction)
    requires a.HydrateExpiryCache? && Enabled(s, a)
    ensures NoSlack(Step(s, a)) <==> CleanStep(s, a)
  {
    var s' := Step(s, a);
    forall u | u in s.ex.rows ensures SlackOf(s'.ex, u) == PendingOf(s, u) {
    }
  }

  lemma CrashSlack(s: System)
    requires NoSlack(s)
    ensures CleanStep(s, Crash) ==> NoSlack(Step(s, Crash))
  {
    var s' := Step(s, Crash);
    forall u | u in s.ex.rows
      ensures SlackOf(s'.ex, u) == if u in s.ex.inflight then AtLeastZero(PendingOf(s, u) - s.ex.rows[u].grace)
                                   else SlackOf(s.ex, u)
    {
    }
  }

  lemma LoginSlack(s: System, a: SysAction)
    requires a.GraceLogin? && Enabled(s, a) && NoSlack(s) && GracePart(s)
    ensures NoSlack(Step(s, a)) <==> CleanStep(s, a)
  {
    var s' := Step(s, a);
    if a.user !in s.ex.inflight {
      assert Accounted(s.ex, s.p.written, |s.p.applied|, a.user, true);
      assert a.user in s.ex.rows;
    }
    forall u | u != a.user ensures SlackOf(s'.ex, u) == SlackOf(s.ex, u) {
    }
  }

  /** A crash that finds exact accounts leaves every row able to pay for its
      pending events if and only if it is clean. */
  lemma CrashStaysPaidIff(s: System)
    requires GracePart(s) && NoSlack(s)
    ensures (forall u :: u in s.ex.rows ==> PendingOf(Step(s, Crash), u) <= s.ex.rows[u].grace) <==> CleanStep(s, Crash)
  {
    var s' := Step(s, Crash);
    assert s'.ex.rows == s.ex.rows && s'.p.written == s.p.written && s'.p.applied == s.p.applied;
    forall u | u in s.ex.rows && u !in s.ex.inflight ensures PendingOf(s, u) <= s.ex.rows[u].grace {
      PendingIsCovered(s.ex, s.p.written, |s.p.applied|, Trusted(s.ex.state, s.degraded.expiry), u);
    }
    assert forall u :: u in s.ex.rows ==> PendingOf(s', u) == PendingOf(s, u);
  }

  /** Actions that leave the rows, the callbacks in flight and the slack alone. */
  predicate LeavesAccounts(a: SysAction) {
    !a.GraceLogin? && !a.WorkerCommit? && !a.BackendCommit? && !a.ApplyExpiryEntry?
    && !a.HydrateExpiryCache? && !a.Crash?
  }

  lemma LeavesAccountsSlack(s: System, a: SysAction)
    requires LeavesAccounts(a) && Enabled(s, a) && NoSlack(s)
    ensures NoSlack(Step(s, a)) && CleanStep(s, a)
  {
    var s' := Step(s, a);
    assert s'.ex.rows == s.ex.rows && s'.ex.inflight == s.ex.inflight && s'.ex.slack == s.ex.slack;
  }

  lemma CleanStepKeepsNoSlack(s: System, a: SysAction)
    requires GracePart(s) && Enabled(s, a) && NoSlack(s) && CleanStep(s, a)
    ensures NoSlack(Step(s, a))
  {
    if a.GraceLogin? {
      LoginSlack(s, a);
    } else if a.WorkerCommit? {
      WorkerCommitSlack(s, a);
    } else if a.BackendCommit? {
      BackendCommitSlack(s, a);
    } else if a.ApplyExpiryEntry? {
      CallbackSlack(s, a);
    } else if a.HydrateExpiryCache? {
      HydrationSlack(s, a);
    } else if a.Crash? {
      CrashSlack(s);
    } else {
      LeavesAccountsSlack(s, a);
    }
  }

  /** Once trusted, a cache becomes trusted again only by hydration. */
  lemma TrustComesFromHydration(s: System, a: SysAction)
    requires Enabled(s, a) && !a.HydrateExpiryCache?
    requires Trusted(Step(s, a).ex.state, Step(s, a).degraded.expiry)
    ensures Trusted(s.ex.state, s.degraded.expiry) && !a.Crash?
  {
    if StatesOnly(a) {
      StatesOnlyKeepsContents(s, a);
    }
  }

  lemma ExactTwiceSameRow(s: System, s': System, u: Name)
    requires AccountExact(s, u) && AccountExact(s', u) && s'.ex.slots == s.ex.slots
    requires s'.p.written == s.p.written && s'.p.applied == s.p.applied
    ensures RowOf(s'.ex.rows, u) == RowOf(s.ex.rows, u)
  {
  }

  /** A commit after which the accounts are exact was safe. */
  lemma ExactCommitIsSafe(s: System, a: SysAction, u: Name)
    requires a.BackendCommit? && Enabled(s, a) && Trusted(s.ex.state, s.degraded.expiry)
    requires AccountsExact(s) && AccountsExact(Step(s, a))
    ensures RowKept(s, a.tx, u)
  {
    StagedExpiriesAre(s, a, u);
    ExpiryStagedIff(DbOf(s), a.start, a.subid, a.steps, a.tx, u);
    if u !in StagedExpiries(a.tx) && HasExpiryOp(a.tx.ops[0], u) {
      var i :| 0 <= i < |a.tx.ops[0]| && ExpiryOpOn(a.tx.ops[0][i], u);
      assert LockFree(s, a.tx.ops[0][i]);
      ExactTwiceSameRow(s, Step(s, a), u);
    }
  }

  /** The conditions are exact: from exact accounts, a step that ends with a
      trusted cache keeps cached plus pending equal to the table for every user
      not in flight if and only if it is clean. */
  lemma AccountsStayExactIff(s: System, a: SysAction)
    requires P.Inv(s.p) && GracePart(s) && AccountsExact(s) && Enabled(s, a)
    requires Trusted(Step(s, a).ex.state, Step(s, a).degraded.expiry)
    ensures AccountsExact(Step(s, a)) <==> CleanStep(s, a)
  {
    if a.HydrateExpiryCache? {
      StepKeepsGracePart(s, a);
      ExactMeansNoSlack(Step(s, a));
      HydrationSlack(s, a);
    } else {
      TrustComesFromHydration(s, a);
      ExactMeansNoSlack(s);
      if GraceSafe(s, a) {
        StepKeepsGracePart(s, a);
        ExactMeansNoSlack(Step(s, a));
        SafeStepSlackIff(s, a);
      } else if AccountsExact(Step(s, a)) {
        forall u ensures RowKept(s, a.tx, u) {
          ExactCommitIsSafe(s, a, u);
        }
      }
    }
  }

  lemma SafeStepSlackIff(s: System, a: SysAction)
    requires GracePart(s) && Enabled(s, a) && NoSlack(s) && GraceSafe(s, a)
    requires !a.HydrateExpiryCache? && !a.Crash?
    ensures NoSlack(Step(s, a)) <==> CleanStep(s, a)
  {
    if a.GraceLogin? {
      LoginSlack(s, a);
    } else if a.ApplyExpiryEntry? {
      CallbackSlack(s, a);
    } else {
      CleanStepKeepsNoSlack(s, a);
    }
  }

  ghost predicate CleanRun(s: System, acts: seq<SysAction>, s': System)
    decreases |acts|
  {
    if acts == [] then s == s'
    else Enabled(s, acts[0]) && CleanStep(s, acts[0]) && CleanRun(Step(s, acts[0]), acts[1..], s')
  }

  lemma {:induction false} CleanRunsKeepNoSlack(s: System, acts: seq<SysAction>, s': System)
    requires P.Inv(s.p) && GracePart(s) && NoSlack(s) && CleanRun(s, acts, s')
    ensures P.Inv(s'.p) && GracePart(s') && NoSlack(s')
    decreases |acts|
  {
    if acts != [] {
      StepKeepsPipeline(s, acts[0]);
      StepKeepsGracePart(s, acts[0]);
      CleanStepKeepsNoSlack(s, acts[0]);
      CleanRunsKeepNoSlack(Step(s, acts[0]), acts[1..], s');
    }
  }

  /** No user has been recorded more grace logins than were granted under the
      generation of its row; the row can pay for every pending event; and while
      the cache is Ready the account is exact. */
  ghost predicate GraceExact(s: System, u: Name) {
    u in s.ex.rows && u !in s.ex.inflight ==>
      && u in s.ex.allowance
      && CountGrace(s.p.written, u, s.ex.rows[u].generation) <= s.ex.allowance[u]
      && PendingOf(s, u) <= s.ex.rows[u].grace
      && (s.ex.state == Ready ==> AccountExact(s, u))
  }

  /** The worker's pending grace event contradicts the table, once the per-user
      lock is free. */
  predicate Contradicted(s: System) {
    P.HasPending(s.p) && s.p.worker.InTxn? &&
    var e := P.PendingEvent(s.p);
    && e.kind == KIND_GRACE && FirstTime(s) && e.user !in s.ex.inflight
    && PersistGrace(RowOf(s.ex.rows, e.user), e.generation).Contradiction?
  }

  /** In every clean run no generation is ever used for more grace logins than
      were granted under it, the accounts are exact, and the contradiction error,
      which would block the journal, is never met. */
  lemma {:induction false} CleanRunsNeverOverAdmit(clock: int, acts: seq<SysAction>, s: System, u: Name)
    requires CleanRun(Init(clock), acts, s)
    ensures GraceExact(s, u)
    ensures !Contradicted(s)
  {
    InitHoldsPipeline(clock);
    InitHoldsGrace(clock);
    CleanRunsKeepNoSlack(Init(clock), acts, s);
    NoSlackMeansExact(s, u);
    NoSlackMeansNoContradiction(s);
  }

  lemma NoSlackMeansExact(s: System, u: Name)
    requires GracePart(s) && NoSlack(s)
    ensures GraceExact(s, u)
  {
    if u in s.ex.rows && u !in s.ex.inflight {
      var k, trusted := |s.p.applied|, Trusted(s.ex.state, s.degraded.expiry);
      GraceLoginsWithinAllowance(s.ex, s.p.written, k, trusted, u);
      PendingIsCovered(s.ex, s.p.written, k, trusted, u);
      assert Accounted(s.ex, s.p.written, k, u, trusted);
    }
  }

  lemma NoSlackMeansNoContradiction(s: System)
    requires P.Inv(s.p) && GracePart(s) && NoSlack(s)
    ensures !Contradicted(s)
  {
    if Contradicted(s) {
      P.ReceiptDecides(s.p);
      NoSlackNoContradiction(s.ex, s.p.written, |s.p.applied|, Trusted(s.ex.state, s.degraded.expiry));
    }
  }
}
