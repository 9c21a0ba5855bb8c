/** Hydration after a restart: it makes both caches Ready whenever the tables fit,
    and makes them agree with the tables whatever happened before.
 */
module SystemHydration {
  import opened AuthTypes
  import opened LockCache
  import opened ExpiryCache
  import opened LoginTables
  import opened Transactions
  import opened LockCoherence
  import opened GraceLedger
  import opened AuthSystem
  import opened SystemRuns
  import opened SystemInvariant
  import opened SystemTheorems

  /** Every row is about a name. */
  ghost predicate Named(s: System) {
    RowsNamed(s.lk.attempts) && forall u :: u in s.ex.rows ==> Occupied(u)
  }

  lemma BackendCommitKeepsRowNames(s: System, a: SysAction)
    requires Named(s) && a.BackendCommit? && BackendCommitOk(s, a)
    ensures forall u :: u in a.tx.db.expiry ==> Occupied(u)
  {
    var ops := a.tx.ops[0];
    forall u | u in a.tx.db.expiry ensures Occupied(u) {
      TransactionIsItsSurvivors(DbOf(s), a.start, a.subid, a.steps, a.tx, u);
      ExpiryOpsAgree(DbOf(s), ops, a.start, u);
      if HasExpiryOp(ops, u) {
        var i :| 0 <= i < |ops| && ExpiryOpOn(ops[i], u);
      }
    }
  }

  lemma StepKeepsNamed(s: System, a: SysAction)
    requires Named(s) && Enabled(s, a)
    ensures Named(Step(s, a))
  {
    if a.BackendCommit? {
      BackendCommitKeepsNamed(s, a);
      BackendCommitKeepsRowNames(s, a);
    } else if StatesOnly(a) {
      StatesOnlyKeepsContents(s, a);
    }
  }

  lemma {:induction false} RunsKeepNamed(s: System, acts: seq<SysAction>, s': System)
    requires Named(s) && Reaches(s, acts, s')
    ensures Named(s')
    decreases |acts|
  {
    if acts != [] {
      StepKeepsNamed(s, acts[0]);
      RunsKeepNamed(Step(s, acts[0]), acts[1..], s');
    }
  }

  /** What the tables and the clock say is the same. */
  predicate SameTables(s: System, s': System) {
    s'.lk.attempts == s.lk.attempts && s'.ex.rows == s.ex.rows && s'.clock == s.clock
  }

  /** The lock cache right after hydration: Ready exactly when the active lockouts
      fit, and then in agreement with the table. */
  lemma HydrateLockNow(s: System) returns (s': System)
    requires Named(s) && s.p.worker.Hydrating? && s.lk.inflight == map[]
    ensures Leads(s, s') && SameTables(s, s') && s'.p == s.p && s'.ex == s.ex && s'.lk.inflight == map[]
    ensures s'.lk.state == if |ActiveUsers(s.lk.attempts, s.clock)| <= LOCK_CACHE_SIZE then Ready else Overflow
    ensures LockInv(s'.lk, s.clock, s'.lk.state == Ready)
  {
    var prepared := SnapshotExists(s.lk.attempts, s.clock);
    var a := HydrateLock(prepared, s.clock);
    assert Enabled(s, a);
    s' := Step(s, a);
    LeadsByStep(s, a);
    HydrationIsReadyIff(s.lk, prepared, s.clock, s.clock);
    HydrateKeepsLockInv(s.lk, prepared, s.clock, s.clock);
  }

  /** The cache has the row the table has, with its grace. */
  ghost predicate ShowsRow(s: System, u: Name) {
    CachedRow(s.ex.slots, u) ==
      if u in s.ex.rows
      then Some(ExpirySlot(u, s.ex.rows[u].mustChangeBy, s.ex.rows[u].generation, AtLeastZero(s.ex.rows[u].grace)))
      else None
  }

  lemma SnapshotShowsRow(s: System, prepared: seq<ExpirySlot>, u: Name)
    requires Named(s) && IsRowSnapshot(s.ex.rows, prepared) && |s.ex.rows| <= EXPIRY_CACHE_SIZE
    requires s.ex.slots == HydratedExpiry(prepared)
    ensures ShowsRow(s, u)
  {
    assert |s.ex.rows.Keys| == |s.ex.rows|;
    HydrationInstallsRows(prepared, u);
    if u in s.ex.rows {
      RowSnapshotIsComplete(s.ex.rows, prepared, u);
    }
  }

  lemma HydrateExpiryNow(s: System) returns (s': System)
    requires Named(s) && s.p.worker.Hydrating? && s.ex.inflight == map[]
    ensures Leads(s, s') && SameTables(s, s') && s'.p == s.p && s'.lk == s.lk && s'.ex.inflight == map[]
    ensures s'.ex.state == if |s.ex.rows| <= EXPIRY_CACHE_SIZE then Ready else Overflow
    ensures s'.ex.state == Ready ==> forall u :: ShowsRow(s', u)
  {
    var prepared := RowSnapshotExists(s.ex.rows);
    var a := HydrateExpiryCache(prepared);
    assert Enabled(s, a);
    s' := Step(s, a);
    LeadsByStep(s, a);
    ExpiryHydrationIsReadyIff(s.ex, prepared, s.p.written, Cut(s));
    if s'.ex.state == Ready {
      forall u ensures ShowsRow(s', u) {
        SnapshotShowsRow(s', prepared, u);
      }
    }
  }

  lemma CrashNow(s: System) returns (s': System)
    ensures Leads(s, s') && SameTables(s, s') && s'.p.worker.Hydrating?
    ensures s'.lk.inflight == map[] && s'.ex.inflight == map[]
  {
    assert Enabled(s, Crash);
    s' := Step(s, Crash);
    LeadsByStep(s, Crash);
  }


  /** A restart heals: from every reachable state, unsafe steps before it
      notwithstanding, a crash and one hydration of each cache lead to a state of
      the same tables in which each cache is Ready if and only if its table fits,
      and the Ready ones say what the tables say. */
  lemma {:induction false} RestartHeals(clock: int, acts: seq<SysAction>, s: System)
    requires Reaches(Init(clock), acts, s)
    ensures exists s' ::
              && Leads(s, s') && SameTables(s, s')
              && (s'.lk.state == Ready <==> |ActiveUsers(s.lk.attempts, s.clock)| <= LOCK_CACHE_SIZE)
              && (s'.ex.state == Ready <==> |s.ex.rows| <= EXPIRY_CACHE_SIZE)
              && LockoutsAgree(s') && (s'.ex.state == Ready ==> forall u :: ShowsRow(s', u))
  {
    RunsKeepNamed(Init(clock), acts, s);
    var s1 := CrashNow(s);
    var s2 := HydrateLockNow(s1);
    var s3 := HydrateExpiryNow(s2);
    LeadsOn(s, s1, s2);
    LeadsOn(s, s2, s3);
    LockInvMeansAgree(s3);
  }

  lemma LockInvMeansAgree(s: System)
    requires LockInv(s.lk, s.clock, s.lk.state == Ready)
    ensures LockoutsAgree(s)
  {
    if s.lk.state == Ready {
      forall u | u !in s.lk.inflight
        ensures LiveAt(s.lk.slots, u, s.clock) == LiveOnly(UntilOf(RowOf(s.lk.attempts, u)), s.clock)
      {
        assert SameLockout(s.lk, u, s.clock);
      }
    }
  }
}
