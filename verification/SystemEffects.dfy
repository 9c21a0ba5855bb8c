/** What applying an event does to the tables, step by step and over whole runs:
    the row of a user in `login_attempts` is what the logins recorded for that
    user make of it.
 */
module SystemEffects {
  import opened AuthTypes
  import opened EventRing
  import opened ExpiryCache
  import opened LoginTables
  import opened Transactions
  import opened LockCoherence
  import opened AuthSystem
  import opened SystemInvariant
  import P = EventProtocol

  // ---------------------------------------------------------------------
  // One commit of the worker
  // ---------------------------------------------------------------------

  /** A lockout that is over when the transaction begins. */
  predicate RanOut(row: AttemptRow, start: int) {
    row.lockoutUntil.Some? && row.lockoutUntil.value <= start
  }

  /** A lockout still running when the transaction begins. */
  predicate StillLocked(row: AttemptRow, start: int) {
    row.lockoutUntil.Some? && row.lockoutUntil.value > start
  }

  /** A failure leaves a row dated now that counts one more, or one if there was
      no row or its lockout had run out; a row that was there is locked when the
      count reaches the threshold, and only then. */
  ghost predicate FailureRecorded(before: Option<AttemptRow>, after: Option<AttemptRow>, start: int, policy: Policy) {
    && after.Some? && after.value.lastFail == start
    && after.value.failCount ==
         (if before.None? || RanOut(before.value, start) then 1 else before.value.failCount + 1)
    && after.value.lockoutUntil ==
         (if before.Some? && after.value.failCount >= policy.threshold then Some(start + policy.lockoutLen) else None)
  }

  /** A success takes the row away unless a lockout is running, which it leaves
      as it is. */
  ghost predicate SuccessRecorded(before: Option<AttemptRow>, after: Option<AttemptRow>, start: int) {
    after == if before.Some? && StillLocked(before.value, start) then before else None
  }

  /** Committing an event for the first time does to `login_attempts` exactly what
      its kind and flags say, to its own user alone; committing it again does
      nothing. */
  lemma CommitRecordsLogin(s: System, a: SysAction, u: Name)
    requires a.WorkerCommit? && Enabled(s, a)
    ensures var e, s' := P.PendingEvent(s.p), Step(s, a);
            var before, after := RowOf(s.lk.attempts, u), RowOf(s'.lk.attempts, u);
            && (e.id in s.p.receipts ==> after == before)
            && (u != e.user ==> after == before)
            && (e.id !in s.p.receipts && u == e.user && e.kind == KIND_FAILURE && !a.exempt ==>
                  FailureRecorded(before, after, a.start, a.policy))
            && (e.kind == KIND_FAILURE && a.exempt ==> after == before)
            && (e.kind != KIND_FAILURE && e.flags % 2 == 0 ==> after == before)
            && (e.id !in s.p.receipts && u == e.user && e.kind != KIND_FAILURE && e.flags % 2 == 1 ==>
                  SuccessRecorded(before, after, a.start))
  {
  }

  /** And to `password_expiry`: a grace event takes one grace login from the row
      of its generation, and nothing else moves. */
  lemma CommitTakesGrace(s: System, a: SysAction, u: Name)
    requires a.WorkerCommit? && Enabled(s, a)
    ensures var e, s' := P.PendingEvent(s.p), Step(s, a);
            var before, after := RowOf(s.ex.rows, u), RowOf(s'.ex.rows, u);
            var takes := && e.id !in s.p.receipts && e.kind == KIND_GRACE && u == e.user
                         && before.Some? && before.value.generation == e.generation && before.value.grace != -1;
            && (takes ==> before.value.grace > 0 && after == Some(before.value.(grace := before.value.grace - 1)))
            && (!takes ==> after == before)
  {
  }

  // ---------------------------------------------------------------------
  // Logins
  // ---------------------------------------------------------------------

  /** The event of a login. */
  ghost function EventOf(s: System, a: SysAction): Event
    requires a.RecordLogin? || (a.GraceLogin? && CachedRow(s.ex.slots, a.user).Some?)
  {
    if a.RecordLogin? then a.event
    else Event(a.id, a.user, s.clock, 0, KIND_GRACE, CachedRow(s.ex.slots, a.user).value.generation, a.flags)
  }

  /** A login is written to the journal, as the newest record, unless its append
      got only part of the way; and it reaches the ring exactly when the append
      was synced and the ring has room. A grace login is Consumed, and taken from
      the cache, exactly when it was synced. */
  lemma LoginIsRecorded(s: System, a: SysAction)
    requires (a.RecordLogin? || a.GraceLogin?) && Enabled(s, a) && P.RingInv(s.p)
    ensures a.GraceLogin? ==> CachedRow(s.ex.slots, a.user).Some?
    ensures var s', e := Step(s, a), EventOf(s, a);
            && s'.p.written == s.p.written + (if a.result.Partial? then [] else [e])
            && s'.p.ring.held == s.p.ring.held
                 + (if a.result.Synced? && RingHasRoom(s.p.ring) then [e.(seqNo := s.p.ring.nextSeq)] else [])
            && s'.ex.slots == (if a.GraceLogin? && a.result.Synced? then TakeGrace(s.ex.slots, a.user) else s.ex.slots)
            && s'.p.applied == s.p.applied && s'.lk == s.lk && s'.ex.rows == s.ex.rows
  {
    P.AppendReachesRing(s.p, PipelineStep(s, a).value);
  }

  // ---------------------------------------------------------------------
  // Whole runs
  // ---------------------------------------------------------------------

  /** The login an operation of a transaction records for `u`. */
  function LoginOn(op: TxOp, start: int, u: Name): seq<LoginOp> {
    if op.user != u then []
    else
      match op
      case RecordFailure(_, _, _) => [Failed(start)]
      case ClearInactive(_, _) => [Succeeded(start)]
      case ClearForced(_) => [AdminCleared(start)]
      case _ => []
  }

  function LoginsOn(ops: seq<TxOp>, start: int, u: Name): seq<LoginOp> {
    if ops == [] then [] else LoginsOn(ops[..|ops| - 1], start, u) + LoginOn(ops[|ops| - 1], start, u)
  }

  /** The logins of `u` that a step records in the table: those of the event the
      worker applies for the first time, by kind and flags, and those of a backend
      transaction. */
  ghost function LoginsBy(s: System, a: SysAction, u: Name): seq<LoginOp>
    requires Enabled(s, a)
  {
    if a.WorkerCommit? then
      var e := P.PendingEvent(s.p);
      if e.user != u || e.id in s.p.receipts then []
      else if e.kind == KIND_FAILURE then (if a.exempt then [] else [Failed(a.start)])
      else if e.flags % 2 == 1 then [Succeeded(a.start)]
      else []
    else if a.BackendCommit? then LoginsOn(a.tx.ops[0], a.start, u)
    else []
  }

  /** `u` is subject to one policy throughout. */
  ghost predicate UnderPolicy(s: System, a: SysAction, u: Name, policy: Policy)
    requires Enabled(s, a)
  {
    && (a.WorkerCommit? && P.PendingEvent(s.p).user == u ==> a.policy == policy)
    && (a.BackendCommit? ==>
          forall i :: 0 <= i < |a.tx.ops[0]| && a.tx.ops[0][i].RecordFailure? && a.tx.ops[0][i].user == u ==>
            a.tx.ops[0][i].policy == policy)
  }

  lemma {:induction false} LoginRunConcat(row: Option<AttemptRow>, a: seq<LoginOp>, b: seq<LoginOp>, policy: Policy)
    ensures LoginRun(row, a + b, policy) == LoginRun(LoginRun(row, a, policy), b, policy)
    decreases |a|
  {
    if a == [] {
      assert a + b == b;
    } else {
      LoginRunConcat(LoginStep(row, a[0], policy), a[1..], b, policy);
      assert (a + b)[0] == a[0] && (a + b)[1..] == a[1..] + b;
    }
  }

  lemma OneLogin(row: Option<AttemptRow>, op: LoginOp, policy: Policy)
    ensures LoginRun(row, [op], policy) == LoginStep(row, op, policy)
  {
    assert [op][1..] == [];
  }

  lemma {:induction false} FoldRecordsLogins(base: Db, ops: seq<TxOp>, start: int, u: Name, policy: Policy)
    requires forall i :: 0 <= i < |ops| && ops[i].RecordFailure? && ops[i].user == u ==> ops[i].policy == policy
    ensures RowOf(Fold(base, ops, start).attempts, u)
         == LoginRun(RowOf(base.attempts, u), LoginsOn(ops, start, u), policy)
  {
    if ops != [] {
      var init, op := ops[..|ops| - 1], ops[|ops| - 1];
      FoldRecordsLogins(base, init, start, u, policy);
      LoginRunConcat(RowOf(base.attempts, u), LoginsOn(init, start, u), LoginOn(op, start, u), policy);
      if LoginOn(op, start, u) != [] {
        OneLogin(RowOf(Fold(base, init, start).attempts, u), LoginOn(op, start, u)[0], policy);
      }
    }
  }

  lemma WorkerRecordsLogins(s: System, a: SysAction, u: Name, policy: Policy)
    requires a.WorkerCommit? && Enabled(s, a) && UnderPolicy(s, a, u, policy)
    ensures RowOf(Step(s, a).lk.attempts, u) == LoginRun(RowOf(s.lk.attempts, u), LoginsBy(s, a, u), policy)
  {
    CommitRecordsLogin(s, a, u);
    if LoginsBy(s, a, u) != [] {
      OneLogin(RowOf(s.lk.attempts, u), LoginsBy(s, a, u)[0], policy);
    }
  }

  lemma BackendRecordsLogins(s: System, a: SysAction, u: Name, policy: Policy)
    requires a.BackendCommit? && Enabled(s, a) && UnderPolicy(s, a, u, policy)
    ensures RowOf(Step(s, a).lk.attempts, u) == LoginRun(RowOf(s.lk.attempts, u), LoginsBy(s, a, u), policy)
  {
    TransactionIsItsSurvivors(DbOf(s), a.start, a.subid, a.steps, a.tx, u);
    FoldRecordsLogins(DbOf(s), a.tx.ops[0], a.start, u, policy);
  }

  lemma StepRecordsLogins(s: System, a: SysAction, u: Name, policy: Policy)
    requires Enabled(s, a) && UnderPolicy(s, a, u, policy)
    ensures RowOf(Step(s, a).lk.attempts, u) == LoginRun(RowOf(s.lk.attempts, u), LoginsBy(s, a, u), policy)
  {
    if a.WorkerCommit? {
      WorkerRecordsLogins(s, a, u, policy);
    } else if a.BackendCommit? {
      BackendRecordsLogins(s, a, u, policy);
    } else if StatesOnly(a) {
      StatesOnlyKeepsContents(s, a);
    }
  }

  ghost predicate PolicyRun(s: System, acts: seq<SysAction>, s': System, u: Name, policy: Policy)
    decreases |acts|
  {
    if acts == [] then s == s'
    else && Enabled(s, acts[0]) && UnderPolicy(s, acts[0], u, policy)
         && PolicyRun(Step(s, acts[0]), acts[1..], s', u, policy)
  }

  /** The logins of `u` a run records, in the order in which they are applied. */
  ghost function Logins(s: System, acts: seq<SysAction>, u: Name, s': System, policy: Policy): seq<LoginOp>
    requires PolicyRun(s, acts, s', u, policy)
    decreases |acts|
  {
    if acts == [] then [] else LoginsBy(s, acts[0], u) + Logins(Step(s, acts[0]), acts[1..], u, s', policy)
  }

  /** Over every run, whatever else happens in it, the row of `u` is what the
      recorded logins of `u` make of the row it had. */
  lemma {:induction false} RunsRecordLogins(s: System, acts: seq<SysAction>, s': System, u: Name, policy: Policy)
    requires PolicyRun(s, acts, s', u, policy)
    ensures RowOf(s'.lk.attempts, u)
         == LoginRun(RowOf(s.lk.attempts, u), Logins(s, acts, u, s', policy), policy)
    decreases |acts|
  {
    if acts != [] {
      StepRecordsLogins(s, acts[0], u, policy);
      RunsRecordLogins(Step(s, acts[0]), acts[1..], s', u, policy);
      LoginRunConcat(RowOf(s.lk.attempts, u), LoginsBy(s, acts[0], u),
                     Logins(Step(s, acts[0]), acts[1..], u, s', policy), policy);
    }
  }

  /** So in every run from the start the table holds exactly the current streak of
      failures of each user, and the user is locked exactly when it is
      threshold-long. */
  lemma {:induction false} TableHoldsStreaks(clock: int, acts: seq<SysAction>, s: System, u: Name, policy: Policy)
    requires PolicyRun(Init(clock), acts, s, u, policy) && policy.threshold >= 2
    ensures var streak := Streak(Logins(Init(clock), acts, u, s, policy), policy);
            && Describes(RowOf(s.lk.attempts, u), streak, policy)
            && (LockUntil(s.lk, u).Some? <==> |streak| >= policy.threshold)
  {
    RunsRecordLogins(Init(clock), acts, s, u, policy);
    RowDescribesStreak(Logins(Init(clock), acts, u, s, policy), policy);
  }

  function AllFailed(times: seq<int>): seq<LoginOp> {
    if times == [] then [] else AllFailed(times[..|times| - 1]) + [Failed(times[|times| - 1])]
  }

  lemma {:induction false} FailuresOnly(row: Option<AttemptRow>, times: seq<int>, policy: Policy)
    ensures LoginRun(row, AllFailed(times), policy) == FailRun(row, times, policy)
  {
    if times != [] {
      FailuresOnly(row, times[..|times| - 1], policy);
      LoginRunSnoc(row, AllFailed(times[..|times| - 1]), Failed(times[|times| - 1]), policy);
    }
  }

  /** A run that records a threshold of failures of `u`, with no clear between
      them and no lockout running out before one, ends with `u` locked, from
      whatever state it starts in. */
  lemma {:induction false} ThresholdOfFailuresLocks(s: System, acts: seq<SysAction>, s': System, u: Name,
                                                    policy: Policy, times: seq<int>)
    requires PolicyRun(s, acts, s', u, policy) && Logins(s, acts, u, s', policy) == AllFailed(times)
    requires |times| >= 2 && |times| >= policy.threshold
    requires NoneExpires(RowOf(s.lk.attempts, u), times, policy)
    ensures LockUntil(s'.lk, u) == Some(times[|times| - 1] + policy.lockoutLen)
  {
    RunsRecordLogins(s, acts, s', u, policy);
    FailuresOnly(RowOf(s.lk.attempts, u), times, policy);
    ThresholdLongRunEndsLocked(RowOf(s.lk.attempts, u), times, policy);
  }
}
