/** When a restart loses nothing: from which states a crash can be followed by
    steps of the worker that apply everything written, with no help from any
    backend transaction; and from which no such continuation exists.
 */
module SystemDrain {
  import opened AuthTypes
  import opened JournalFiles
  import opened LoginTables
  import opened Transactions
  import opened GraceLedger
  import opened AuthSystem
  import opened OwnRuns
  import opened SystemInvariant
  import opened SystemTheorems
  import opened SystemOrder
  import P = EventProtocol
  import R = StuckJournal

  // ---------------------------------------------------------------------
  // What every reachable state has
  // ---------------------------------------------------------------------

  /** The tables are sound, and every journaled name is one. */
  ghost predicate Sound(s: System) {
    && TablesOk(DbOf(s))
    && forall i :: 0 <= i < |s.p.written| ==> Occupied(s.p.written[i].user)
  }

  lemma WorkerCommitKeepsTables(s: System, a: SysAction)
    requires TablesOk(DbOf(s)) && a.WorkerCommit? && Enabled(s, a)
    ensures TablesOk(DbOf(CommitEvent(s, a)))
  {
    if FirstTime(s) && WorkerOp(s, a).Some? {
      EffectKeepsTables(DbOf(s), WorkerOp(s, a).value, a.start);
    }
  }

  /** Rows are written by transactions only. */
  lemma OthersKeepRows(s: System, a: SysAction)
    requires Enabled(s, a) && !a.WorkerCommit? && !a.BackendCommit?
    ensures Step(s, a).ex.rows == s.ex.rows && Step(s, a).lk.attempts == s.lk.attempts
  {
    if StatesOnly(a) {
      StatesOnlyKeepsContents(s, a);
    }
  }

  lemma StepKeepsTables(s: System, a: SysAction)
    requires TablesOk(DbOf(s)) && Enabled(s, a)
    ensures TablesOk(DbOf(Step(s, a)))
  {
    if a.WorkerCommit? {
      WorkerCommitKeepsTables(s, a);
    } else if a.BackendCommit? {
      TxRunsKeepTables(BeginTx(DbOf(s), a.start, a.subid), a.steps, a.tx);
    } else {
      OthersKeepRows(s, a);
    }
  }

  /** A login adds at most its own event to the log, and touches no row. */
  lemma LoginExtendsLog(s: System, a: SysAction)
    requires (a.RecordLogin? || a.GraceLogin?) && Enabled(s, a)
    ensures var s' := Step(s, a);
            && s'.p.applied == s.p.applied && s.p.written <= s'.p.written && s'.ex.rows == s.ex.rows
            && forall i :: |s.p.written| <= i < |s'.p.written| ==> Occupied(s'.p.written[i].user)
  {
  }

  lemma StepKeepsNames(s: System, a: SysAction)
    requires Sound(s) && Enabled(s, a)
    ensures forall i :: 0 <= i < |Step(s, a).p.written| ==> Occupied(Step(s, a).p.written[i].user)
  {
    if a.RecordLogin? || a.GraceLogin? {
      LoginExtendsLog(s, a);
    } else if a.WorkerCommit? {
      P.LogMovesOnlyBy(s.p, P.CommitTxn);
    } else {
      PipelineKeepsLog(s, a);
    }
  }

  lemma {:induction false} RunsKeepSound(s: System, acts: seq<SysAction>, s': System)
    requires Sound(s) && Reaches(s, acts, s')
    ensures Sound(s')
    decreases |acts|
  {
    if acts != [] {
      StepKeepsTables(s, acts[0]);
      StepKeepsNames(s, acts[0]);
      RunsKeepSound(Step(s, acts[0]), acts[1..], s');
    }
  }

  // ---------------------------------------------------------------------
  // The promise
  // ---------------------------------------------------------------------

  /** A crash can be continued, without any backend transaction, until all that
      was written has been applied. */
  ghost predicate CanDrain(s: System, w: World) {
    exists s' :: OwnLeads(Step(s, Crash), s', w) && s'.p.written == s.p.written && s'.p.applied == s.p.written
  }

  /** Every row can pay for the grace events pending against it. */
  ghost predicate PaidFor(s: System) {
    forall u :: u in s.ex.rows ==> PendingOf(s, u) <= s.ex.rows[u].grace
  }

  // ---------------------------------------------------------------------
  // A row that cannot pay blocks the journal
  // ---------------------------------------------------------------------

  /** The grace of `u`'s row and what has been taken from it. */
  ghost function Funds(s: System, u: Name): int
    requires u in s.ex.rows
  {
    s.ex.rows[u].grace + Used(s.p.written, Cut(s), u, s.ex.rows[u].generation)
  }

  /** Nothing but a backend transaction adds to a row's funds or replaces it. */
  ghost predicate SameFunds(s: System, s': System, u: Name) {
    && u in s.ex.rows && u in s'.ex.rows && s'.ex.rows[u].generation == s.ex.rows[u].generation
    && Funds(s', u) == Funds(s, u)
  }

  /** A first commit applies the next event of the log to the rows; any other
      changes nothing. */
  lemma CommitApplies(s: System, a: SysAction)
    requires P.Inv(s.p) && a.WorkerCommit? && Enabled(s, a)
    ensures var s', k := Step(s, a), |s.p.applied|;
            && s'.p.written == s.p.written && k <= |s.p.written|
            && (!FirstTime(s) ==> s'.p.applied == s.p.applied && s'.ex.rows == s.ex.rows)
            && (FirstTime(s) ==>
                  && k < |s.p.written| && |s'.p.applied| == k + 1
                  && (s.p.written[k].kind == KIND_GRACE ==>
                        PersistGrace(RowOf(s.ex.rows, s.p.written[k].user), s.p.written[k].generation).Persisted?)
                  && s'.ex.rows == RowsApplied(s.ex, s.p.written[k]))
  {
    P.CommitMovesLog(s.p);
  }

  lemma CommitKeepsFunds(s: System, a: SysAction, u: Name)
    requires P.Inv(s.p) && Sound(s) && a.WorkerCommit? && Enabled(s, a) && u in s.ex.rows
    ensures SameFunds(s, Step(s, a), u)
  {
    CommitApplies(s, a);
    if FirstTime(s) {
      ApplyKeepsFunds(s.ex, s.p.written, |s.p.applied|, u);
    }
  }

  lemma AppendKeepsFunds(s: System, a: SysAction, u: Name)
    requires P.Inv(s.p) && (a.RecordLogin? || a.GraceLogin?) && Enabled(s, a) && u in s.ex.rows
    ensures SameFunds(s, Step(s, a), u)
  {
    LoginExtendsLog(s, a);
    var s', k := Step(s, a), |s.p.applied|;
    assert s'.p.written[..k] == s.p.written[..k];
  }

  lemma OwnStepKeepsFunds(s: System, a: SysAction, w: World, u: Name)
    requires P.Inv(s.p) && Sound(s) && Enabled(s, a) && OwnStep(s, a, w) && u in s.ex.rows
    ensures SameFunds(s, Step(s, a), u)
  {
    if a.WorkerCommit? {
      CommitKeepsFunds(s, a, u);
    } else if a.RecordLogin? || a.GraceLogin? {
      AppendKeepsFunds(s, a, u);
    } else {
      PipelineKeepsLog(s, a);
      OthersKeepRows(s, a);
    }
  }

  lemma OwnStepKeepsInvs(s: System, a: SysAction)
    requires P.Inv(s.p) && Sound(s) && Enabled(s, a)
    ensures P.Inv(Step(s, a).p) && Sound(Step(s, a))
  {
    StepKeepsPipeline(s, a);
    StepKeepsTables(s, a);
    StepKeepsNames(s, a);
  }

  lemma {:induction false} OwnRunsKeepFunds(s: System, acts: seq<SysAction>, s': System, w: World, u: Name)
    requires P.Inv(s.p) && Sound(s) && OwnRun(s, acts, s', w) && u in s.ex.rows
    ensures P.Inv(s'.p) && Sound(s') && SameFunds(s, s', u)
    decreases |acts|
  {
    if acts != [] {
      OwnStepKeepsInvs(s, acts[0]);
      OwnStepKeepsFunds(s, acts[0], w, u);
      OwnRunsKeepFunds(Step(s, acts[0]), acts[1..], s', w, u);
    }
  }

  lemma {:induction false} OwnRunIsRun(s: System, acts: seq<SysAction>, s': System, w: World)
    requires OwnRun(s, acts, s', w)
    ensures Reaches(s, acts, s')
    decreases |acts|
  {
    if acts != [] {
      OwnRunIsRun(Step(s, acts[0]), acts[1..], s', w);
    }
  }

  /** The counting argument: a prefix of the log that contains all of `log` takes
      from the row as often as `log` does. */
  lemma PrefixCounts(log: seq<Event>, log': seq<Event>, k: nat, u: Name, g: int)
    requires log <= log' && |log| <= k <= |log'|
    ensures CountGrace(log, u, g) <= Used(log', k, u, g)
  {
    assert log'[..k] == log + log'[|log|..k];
    CountConcat(log, log'[|log|..k], u, g);
  }

  /** While a row cannot pay for its pending events, no continuation without a
      backend transaction applies everything written: logins, hydrations, crashes
      and retries notwithstanding. */
  lemma UnpaidForGood(s: System, acts: seq<SysAction>, s': System, w: World, u: Name)
    requires P.Inv(s.p) && Sound(s) && OwnRun(s, acts, s', w)
    requires u in s.ex.rows && PendingOf(s, u) > s.ex.rows[u].grace
    ensures |s'.p.applied| < |s.p.written|
  {
    OwnRunsKeepFunds(s, acts, s', w, u);
    OwnRunIsRun(s, acts, s', w);
    var steps := RunsProject(s, acts, s');
    R.WrittenOnlyGrows(s.p, steps, s'.p);
    var g := s.ex.rows[u].generation;
    UsedPlusPending(s.p.written, |s.p.applied|, u, g);
    if |s'.p.applied| >= |s.p.written| {
      PrefixCounts(s.p.written, s'.p.written, |s'.p.applied|, u, g);
    }
  }

  /** Nor while the journal is stuck. */
  lemma StuckForGood(s: System, acts: seq<SysAction>, s': System)
    requires P.Inv(s.p) && Reaches(s, acts, s') && R.Stuck(s.p)
    ensures |s'.p.applied| < |s.p.written|
  {
    var n := R.StuckIsBlocked(s.p);
    var steps := RunsProject(s, acts, s');
    R.BlockedForGood(s.p, n, steps, s'.p);
  }

  // ---------------------------------------------------------------------
  // Otherwise the worker can replay the journal
  // ---------------------------------------------------------------------

  /** Nothing is in flight, no attempt has failed, and the rows can pay. */
  ghost predicate Replaying(s: System) {
    && P.Inv(s.p) && Sound(s) && PaidFor(s)
    && s.lk.inflight == map[] && s.ex.inflight == map[] && s.failures == 0
  }

  /** The parts of the pipeline that replaying does not touch. */
  predicate SameFiles(p: P.State, p': P.State) {
    p'.written == p.written && p'.removed == p.removed && p'.active == p.active && p'.processing == p.processing
  }

  lemma SameLogKeepsReplaying(s: System, s': System)
    requires Replaying(s) && P.Inv(s'.p) && s'.p.written == s.p.written && s'.p.applied == s.p.applied
    requires s'.ex == s.ex && s'.lk.attempts == s.lk.attempts && s'.lk.inflight == map[] && s'.failures == 0
    ensures Replaying(s')
  {
    assert forall u :: u in s.ex.rows ==> PendingOf(s', u) == PendingOf(s, u);
  }

  lemma DoJournal(s: System, step: P.Action, w: World) returns (s': System)
    requires Replaying(s) && JournalOnly(step) && P.Enabled(s.p, step)
    ensures OwnLeads(s, s', w) && s' == s.(p := P.Step(s.p, step)) && Replaying(s')
  {
    assert Enabled(s, Journal(step));
    s' := Step(s, Journal(step));
    OwnLeadsByStep(s, Journal(step), w);
    P.StepKeepsInv(s.p, step);
    P.LogMovesOnlyBy(s.p, step);
    SameLogKeepsReplaying(s, s');
  }

  /** Waiting until the row of `u` has room for one more failure. */
  lemma WaitForRoom(s: System, u: Name, w: World) returns (s': System)
    requires Replaying(s)
    ensures OwnLeads(s, s', w) && s' == s.(clock := s'.clock) && Replaying(s')
    ensures CountFits(RowOf(s.lk.attempts, u), s'.clock)
  {
    var until := UntilOf(RowOf(s.lk.attempts, u));
    var clock := if until.Some? && until.value > s.clock then until.value else s.clock;
    assert Enabled(s, Tick(clock));
    s' := Step(s, Tick(clock));
    OwnLeadsByStep(s, Tick(clock), w);
    assert u in s.lk.attempts ==> AttemptOk(s.lk.attempts[u]);
    SameLogKeepsReplaying(s, s');
  }

  /** A row that can pay for what is pending does not contradict the next event. */
  lemma PaidEventPersists(s: System)
    requires Replaying(s) && s.p.worker.InTxn? && P.HasPending(s.p) && FirstTime(s)
    requires P.PendingEvent(s.p).kind == KIND_GRACE
    ensures PersistGrace(RowOf(s.ex.rows, P.PendingEvent(s.p).user), P.PendingEvent(s.p).generation).Persisted?
  {
    var e := P.PendingEvent(s.p);
    P.ReceiptDecides(s.p);
    if e.user in s.ex.rows && s.ex.rows[e.user].generation == e.generation {
      assert PendingOf(s, e.user) <= s.ex.rows[e.user].grace;
      ApplyCounts(s.p.written, |s.p.applied|, e.user, e.generation);
    }
  }

  function CommitAction(s: System, w: World): SysAction
    requires P.HasPending(s.p)
  {
    var u := P.PendingEvent(s.p).user;
    WorkerCommit(s.clock, w.policy(u), w.exempt(u))
  }

  lemma CanCommit(s: System, w: World)
    requires Replaying(s) && s.p.worker.InTxn? && WorldOk(w) && P.HasPending(s.p)
    requires CountFits(RowOf(s.lk.attempts, P.PendingEvent(s.p).user), s.clock)
    ensures Enabled(s, CommitAction(s, w))
  {
    P.PendingPlace(s.p);
    if FirstTime(s) && P.PendingEvent(s.p).kind == KIND_GRACE {
      PaidEventPersists(s);
    }
  }

  /** A row that could pay can still pay once the event is applied. */
  lemma AppliedIsPaid(s: System, s': System, u: Name)
    requires |s.p.applied| <= |s.p.written| && s'.p.written == s.p.written && TablesOk(DbOf(s))
    requires u in s'.ex.rows && (u in s.ex.rows ==> PendingOf(s, u) <= s.ex.rows[u].grace)
    requires |s'.p.applied| == |s.p.applied| + 1 <= |s.p.written|
    requires var e := s.p.written[|s.p.applied|];
             && (e.kind == KIND_GRACE ==> PersistGrace(RowOf(s.ex.rows, e.user), e.generation).Persisted?)
             && s'.ex.rows == RowsApplied(s.ex, e)
    ensures PendingOf(s', u) <= s'.ex.rows[u].grace
  {
    assert u in s.ex.rows;
    ApplyKeepsFunds(s.ex, s.p.written, |s.p.applied|, u);
  }

  lemma CommitKeepsPaid(s: System, a: SysAction)
    requires Replaying(s) && a.WorkerCommit? && Enabled(s, a)
    ensures PaidFor(Step(s, a))
  {
    CommitApplies(s, a);
    var s' := Step(s, a);
    forall u | u in s'.ex.rows ensures PendingOf(s', u) <= s'.ex.rows[u].grace {
      if FirstTime(s) {
        AppliedIsPaid(s, s', u);
      }
    }
  }

  /** The commit, before its callback. */
  lemma Commit(s: System, w: World) returns (s': System)
    requires Replaying(s) && s.p.worker.InTxn? && WorldOk(w) && P.HasPending(s.p)
    requires CountFits(RowOf(s.lk.attempts, P.PendingEvent(s.p).user), s.clock)
    ensures OwnLeads(s, s', w) && s'.p == P.Step(s.p, P.CommitTxn) && P.Inv(s'.p) && Sound(s') && PaidFor(s')
    ensures s'.ex.inflight == map[] && s'.failures == 0
    ensures forall u :: u in s'.lk.inflight ==> u == P.PendingEvent(s.p).user
  {
    var a := CommitAction(s, w);
    CanCommit(s, w);
    s' := Step(s, a);
    OwnLeadsByStep(s, a, w);
    OwnStepKeepsInvs(s, a);
    CommitKeepsPaid(s, a);
  }

  /** The callback's cache entry, if there is one. */
  lemma ApplyStagedLock(s: System, u: Name, w: World) returns (s': System)
    requires forall v :: v in s.lk.inflight ==> v == u
    ensures OwnLeads(s, s', w) && s'.lk.inflight == map[] && s'.lk.attempts == s.lk.attempts
    ensures s'.p == s.p && s'.ex == s.ex && s'.failures == s.failures
  {
    if u in s.lk.inflight {
      assert Enabled(s, ApplyLock(u));
      s' := Step(s, ApplyLock(u));
      OwnLeadsByStep(s, ApplyLock(u), w);
    } else {
      s' := s;
      OwnLeadsNowhere(s, w);
    }
  }

  /** And its acknowledgement. */
  lemma Acknowledge(s: System, w: World) returns (s': System)
    requires s.p.worker.Committed? && Replaying(s)
    ensures OwnLeads(s, s', w) && s'.p == P.Step(s.p, P.CommitCallback) && Replaying(s')
  {
    assert Enabled(s, WorkerCallback);
    s' := Step(s, WorkerCallback);
    OwnLeadsByStep(s, WorkerCallback, w);
    P.StepKeepsInv(s.p, P.CommitCallback);
    P.LogMovesOnlyBy(s.p, P.CommitCallback);
    SameLogKeepsReplaying(s, s');
  }

  /** The commit with its cache entry. */
  lemma CommitAndApply(s: System, w: World) returns (s': System)
    requires Replaying(s) && s.p.worker.InTxn? && WorldOk(w) && P.HasPending(s.p)
    requires CountFits(RowOf(s.lk.attempts, P.PendingEvent(s.p).user), s.clock)
    ensures OwnLeads(s, s', w) && s'.p == P.Step(s.p, P.CommitTxn) && Replaying(s')
  {
    var s1 := Commit(s, w);
    s' := ApplyStagedLock(s1, P.PendingEvent(s.p).user, w);
    OwnLeadsOn(s, s1, s', w);
    assert forall v :: v in s1.ex.rows ==> PendingOf(s', v) == PendingOf(s1, v);
  }

  /** What commit and acknowledgement do to the pipeline. */
  lemma CommitThenAcknowledge(p: P.State)
    requires P.Inv(p) && p.worker.InTxn?
    ensures P.HasPending(p) && P.Enabled(p, P.CommitTxn)
    ensures var p1 := P.Step(p, P.CommitTxn);
            && p1.worker.Committed?
            && var p2 := P.Step(p1, P.CommitCallback);
               SameFiles(p, p2) && p2.worker == P.Reading(p.worker.pos)
  {
  }

  /** Commit, callback and acknowledgement of the event in hand. */
  lemma CommitAndAcknowledge(s: System, w: World) returns (s': System)
    requires Replaying(s) && s.p.worker.InTxn? && WorldOk(w)
    ensures OwnLeads(s, s', w) && Replaying(s') && SameFiles(s.p, s'.p)
    ensures s'.p.worker == P.Reading(s.p.worker.pos)
  {
    CommitThenAcknowledge(s.p);
    var s1 := WaitForRoom(s, P.PendingEvent(s.p).user, w);
    var s2 := CommitAndApply(s1, w);
    s' := Acknowledge(s2, w);
    OwnLeadsOn(s, s1, s2, w);
    OwnLeadsOn(s, s2, s', w);
  }

  /** Read, claim, commit and acknowledge one record. */
  lemma ReplayOne(s: System, w: World) returns (s': System)
    requires Replaying(s) && WorldOk(w) && s.p.worker.Reading? && s.p.worker.pos < |P.Records(s.p.processing)|
    ensures OwnLeads(s, s', w) && Replaying(s') && SameFiles(s.p, s'.p)
    ensures s'.p.worker == P.Reading(s.p.worker.pos + 1)
  {
    var s1 := DoJournal(s, P.ReadRecord, w);
    var s2 := DoJournal(s1, P.BeginTxn, w);
    s' := CommitAndAcknowledge(s2, w);
    OwnLeadsOn(s, s1, s2, w);
    OwnLeadsOn(s, s2, s', w);
  }

  lemma {:induction false} ReplayRest(s: System, w: World) returns (s': System)
    requires Replaying(s) && WorldOk(w) && s.p.worker.Reading?
    ensures OwnLeads(s, s', w) && Replaying(s') && SameFiles(s.p, s'.p)
    ensures s'.p.worker == P.Reading(|P.Records(s.p.processing)|)
    decreases |P.Records(s.p.processing)| - s.p.worker.pos
  {
    if s.p.worker.pos == |P.Records(s.p.processing)| {
      s' := s;
      OwnLeadsNowhere(s, w);
    } else {
      var s1 := ReplayOne(s, w);
      s' := ReplayRest(s1, w);
      OwnLeadsOn(s, s1, s', w);
    }
  }

  /** A batch can be replayed up to its first undecodable block. */
  lemma ReplayBatch(s: System, w: World) returns (s': System)
    requires Replaying(s) && WorldOk(w) && s.p.worker.Idle? && s.p.processing.Some?
    ensures OwnLeads(s, s', w) && Replaying(s') && SameFiles(P.Step(s.p, P.OpenBatch), s'.p)
    ensures s'.p.worker == P.Reading(|P.Records(s.p.processing)|)
    ensures |s'.p.applied| == |s.p.removed| + |P.Records(s.p.processing)|
  {
    var s1 := DoJournal(s, P.OpenBatch, w);
    s' := ReplayRest(s1, w);
    OwnLeadsOn(s, s1, s', w);
  }

  /** And, if there is none, deleted with its receipts. */
  lemma FinishBatch(s: System, w: World) returns (s': System)
    requires Replaying(s) && WorldOk(w) && s.p.worker.Idle? && s.p.processing.Some? && P.Verifies(s.p.processing)
    ensures OwnLeads(s, s', w) && Replaying(s') && s'.p.worker.Idle? && s'.p.processing.None?
    ensures s'.p.active == s.p.active && s'.p.written == s.p.written
  {
    var s1 := ReplayBatch(s, w);
    var s2 := DoJournal(s1, P.RemoveBatch, w);
    s' := DoJournal(s2, P.DeleteReceipts, w);
    OwnLeadsOn(s, s1, s2, w);
    OwnLeadsOn(s, s2, s', w);
  }

  /** The active file, once it is alone. */
  lemma FinishActive(s: System, w: World) returns (s': System)
    requires Replaying(s) && WorldOk(w) && s.p.worker.Idle? && s.p.processing.None? && s.p.active.lost == []
    ensures OwnLeads(s, s', w) && s'.p.written == s.p.written && s'.p.applied == s.p.written
  {
    if FileSize(s.p.active) == 0 {
      s' := s;
      OwnLeadsNowhere(s, w);
    } else {
      var s1 := DoJournal(s, P.Rotate, w);
      s' := ReplayBatch(s1, w);
      OwnLeadsOn(s, s1, s', w);
    }
  }

  lemma DrainFromIdle(s: System, w: World) returns (s': System)
    requires Replaying(s) && WorldOk(w) && s.p.worker.Idle? && !R.Stuck(s.p)
    ensures OwnLeads(s, s', w) && s'.p.written == s.p.written && s'.p.applied == s.p.written
  {
    if s.p.processing.None? {
      s' := FinishActive(s, w);
    } else if P.Verifies(s.p.processing) {
      var s1 := FinishBatch(s, w);
      s' := FinishActive(s1, w);
      OwnLeadsOn(s, s1, s', w);
    } else {
      s' := ReplayBatch(s, w);
    }
  }

  /** After a crash nothing is in flight. */
  lemma CrashIsReplaying(s: System)
    requires P.Inv(s.p) && Sound(s) && PaidFor(s)
    ensures Replaying(Step(s, Crash)) && Step(s, Crash).p == P.Step(s.p, P.Crash)
  {
    var s' := Step(s, Crash);
    OwnStepKeepsInvs(s, Crash);
    assert forall u :: u in s.ex.rows ==> PendingOf(s', u) == PendingOf(s, u);
  }

  lemma StartAfterCrash(s: System, w: World) returns (s': System)
    requires Replaying(s) && s.p.worker.Hydrating?
    ensures OwnLeads(s, s', w) && Replaying(s') && s'.p == s.p.(worker := P.Idle)
  {
    assert Enabled(s, StartConsuming);
    s' := Step(s, StartConsuming);
    OwnLeadsByStep(s, StartConsuming, w);
    P.StepKeepsInv(s.p, P.StartConsuming);
    SameLogKeepsReplaying(s, s');
  }

  lemma DrainAfterCrash(s: System, w: World)
    requires P.Inv(s.p) && Sound(s) && WorldOk(w) && PaidFor(s) && !R.Stuck(s.p)
    ensures CanDrain(s, w)
  {
    CrashIsReplaying(s);
    var s1 := StartAfterCrash(Step(s, Crash), w);
    var s2 := DrainFromIdle(s1, w);
    OwnLeadsOn(Step(s, Crash), s1, s2, w);
  }

  lemma DrainedIsPaid(s: System, w: World)
    requires P.Inv(s.p) && Sound(s) && CanDrain(s, w)
    ensures PaidFor(s) && !R.Stuck(s.p)
  {
    var s1 := Step(s, Crash);
    var s' :| OwnLeads(s1, s', w) && s'.p.written == s.p.written && s'.p.applied == s.p.written;
    var acts :| OwnRun(s1, acts, s', w);
    OwnStepKeepsInvs(s, Crash);
    OwnRunIsRun(s1, acts, s', w);
    if R.Stuck(s.p) {
      StuckForGood(s1, acts, s');
    }
    forall u | u in s.ex.rows ensures PendingOf(s, u) <= s.ex.rows[u].grace {
      if PendingOf(s, u) > s.ex.rows[u].grace {
        UnpaidForGood(s1, acts, s', w, u);
      }
    }
  }

  /** The promise that a restart discards no accepted event, exactly. In every
      reachable state, whatever the policies and exemptions: the crash can be
      continued, with no backend transaction, until everything written is applied
      if and only if the journal is not stuck and every row can pay for the grace
      events pending against it. */
  lemma {:induction false} RestartAppliesEverything(clock: int, acts: seq<SysAction>, s: System, w: World)
    requires Reaches(Init(clock), acts, s) && WorldOk(w)
    ensures CanDrain(s, w) <==> !R.Stuck(s.p) && PaidFor(s)
  {
    InitHoldsPipeline(clock);
    RunsKeepPipeline(Init(clock), acts, s);
    RunsKeepSound(Init(clock), acts, s);
    if CanDrain(s, w) {
      DrainedIsPaid(s, w);
    } else if !R.Stuck(s.p) && PaidFor(s) {
      DrainAfterCrash(s, w);
    }
  }

  lemma {:induction false} CleanRunIsRun(s: System, acts: seq<SysAction>, s': System)
    requires CleanRun(s, acts, s')
    ensures Reaches(s, acts, s')
    decreases |acts|
  {
    if acts != [] {
      CleanRunIsRun(Step(s, acts[0]), acts[1..], s');
    }
  }

  /** So after a clean run only a stuck journal stands in the way. */
  lemma {:induction false} CleanRunsCanDrain(clock: int, acts: seq<SysAction>, s: System, w: World)
    requires CleanRun(Init(clock), acts, s) && CleanStep(s, Crash) && WorldOk(w)
    ensures CanDrain(s, w) <==> !R.Stuck(s.p)
  {
    forall u | u in s.ex.rows ensures PendingOf(s, u) <= s.ex.rows[u].grace {
      CleanRunsNeverOverAdmit(clock, acts, s, u);
    }
    CleanRunIsRun(Init(clock), acts, s);
    RestartAppliesEverything(clock, acts, s, w);
  }

  /** And so it is after every run that keeps its password rows, loses no expiry
      half, hydrates over no pending grace event and meets no failed sync on a
      grace login. */
  lemma {:induction false} SettledRunsCanDrain(clock: int, acts: seq<SysAction>, s: System, w: World)
    requires SettledRun(Init(clock), acts, s) && WorldOk(w)
    ensures CanDrain(s, w) <==> !R.Stuck(s.p)
  {
    InitIsKept(clock);
    SettledRunsAreClean(Init(clock), acts, s);
    KeptStepIsClean(s, Crash);
    CleanRunsCanDrain(clock, acts, s, w);
  }
}
