/** Why exact accounts and a drained journal need their conditions: a run in which
    the worker retries hydration while a grace event is pending, after which the
    journal cannot be drained, and a run in which a row written again gets the
    generation of an old password.
 */
module GraceCounterexample {
  import opened AuthTypes
  import opened LockCache
  import opened ExpiryCache
  import opened PendingOps
  import opened LoginTables
  import opened Transactions
  import opened GraceLedger
  import opened AuthSystem
  import opened SystemRuns
  import opened SystemInvariant
  import opened SystemTheorems
  import opened SystemDrain
  import P = EventProtocol
  import R = StuckJournal

  const DAY: int := 86_400_000_000

  // ---------------------------------------------------------------------
  // Password operations
  // ---------------------------------------------------------------------

  /** A transaction of one operation. */
  lemma OneWrite(base: Db, start: int, subid: nat, op: TxOp) returns (steps: seq<TxStep>, tx: Tx)
    requires Issuable(base, op, start)
    ensures Commits(base, start, subid, steps, tx) && tx.ops[0] == [op] && tx.db == Effect(base, op, start)
    ensures Resolved(tx.staging.entries, op.user) == Some(StagedPair(tx.db, op))
  {
    var tx0 := BeginTx(base, start, subid);
    tx := TxPerform(tx0, Write(op));
    steps := [Write(op)];
    assert TxRuns(tx, [], tx) && steps[1..] == [];
    assert TxAllowed(tx0, Write(op));
    assert TxRuns(tx0, steps, tx);
    assert [] + [op] == [op] && [op][..0] == [];
    assert tx.staging.entries == [Entry(op.user, StagedPair(tx.db, op), subid)];
  }

  lemma StagedAlone(tx: Tx, op: TxOp)
    requires |tx.ops| == 1 && tx.ops[0] == [op] && !IsLockOp(op)
    requires Resolved(tx.staging.entries, op.user) == Some(StagedPair(tx.db, op))
    requires op.ChangePassword? ==> op.user in tx.db.expiry
    ensures StagedLocks(tx) == map[] && StagedExpiries(tx) == map[op.user := StagedPair(tx.db, op).expiry]
  {
    assert UsersOf(tx.ops[0]) == {op.user} by {
      assert tx.ops[0][0].user == op.user;
    }
  }

  lemma PasswordCommit(s: System, op: TxOp) returns (s': System)
    requires !IsLockOp(op) && Occupied(op.user) && s.ex.inflight == map[] && Issuable(DbOf(s), op, s.clock)
    ensures Leads(s, s') && s'.p == s.p && s'.clock == s.clock
    ensures var after := Effect(DbOf(s), op, s.clock);
            s'.ex == CommitExpiry(s.ex, s.p.written, Cut(s), after.expiry,
                                  map[op.user := StagedPair(after, op).expiry])
  {
    var steps, tx := OneWrite(DbOf(s), s.clock, 1, op);
    var commit := BackendCommit(s.clock, 1, steps, tx);
    assert LockFree(s, op);
    assert Enabled(s, commit);
    s' := Step(s, commit);
    LeadsByStep(s, commit);
    StagedAlone(tx, op);
  }

  lemma Callback(s: System, u: Name) returns (s': System)
    requires u in s.ex.inflight
    ensures Leads(s, s') && s'.p == s.p && s'.clock == s.clock && s'.ex == ApplyExpiry(s.ex, s.p.written, Cut(s), u)
  {
    assert Enabled(s, ApplyExpiryEntry(u));
    s' := Step(s, ApplyExpiryEntry(u));
    LeadsByStep(s, ApplyExpiryEntry(u));
  }

  lemma CommittedAndApplied(ex: ExpirySide, log: seq<Event>, k: nat, rows: map<Name, ExpiryRow>, u: Name,
                            d: ExpiryDecision)
    requires k <= |log| && ex.inflight == map[] && !d.Keep?
    ensures var ex1 := CommitExpiry(ex, log, k, rows, map[u := d]);
            && u in ex1.inflight
            && var ex2 := ApplyExpiry(ex1, log, k, u);
               && ex2.inflight == map[] && ex2.rows == rows
               && (d.SetExpiry? ==>
                     u in ex2.allowance && ex2.allowance[u] == d.grace + Used(log, k, u, d.generation))
  {
  }

  /** A password operation and its callback. */
  lemma PasswordOp(s: System, op: TxOp) returns (s': System)
    requires !IsLockOp(op) && Occupied(op.user) && s.ex.inflight == map[] && Issuable(DbOf(s), op, s.clock)
    ensures Leads(s, s') && s'.p == s.p && s'.clock == s.clock && s'.ex.inflight == map[]
    ensures s'.ex.rows == Effect(DbOf(s), op, s.clock).expiry
    ensures op.ChangePassword? ==>
              && op.user in s'.ex.allowance && op.user in s'.ex.rows
              && s'.ex.allowance[op.user] ==
                   op.grace + Used(s.p.written, Cut(s), op.user, s'.ex.rows[op.user].generation)
  {
    var s1 := PasswordCommit(s, op);
    var after := Effect(DbOf(s), op, s.clock);
    CommittedAndApplied(s.ex, s.p.written, Cut(s), after.expiry, op.user, StagedPair(after, op).expiry);
    s' := Callback(s1, op.user);
    LeadsOn(s, s1, s');
  }

  /** `u` has the only expiry row, with one grace login left and already
      expired, and the worker is between two hydration attempts. */
  ghost predicate OneGraceLeft(s: System, u: Name) {
    && Occupied(u) && s.p.worker.Hydrating? && s.ex.inflight == map[]
    && |s.p.applied| <= |s.p.written|
    && u in s.ex.rows && s.ex.rows == map[u := s.ex.rows[u]]
    && s.ex.rows[u].grace == 1 && s.ex.rows[u].mustChangeBy <= s.clock
  }

  lemma Wait(s: System, clock: int) returns (s': System)
    requires s.clock <= clock
    ensures Leads(s, s') && s' == s.(clock := clock)
  {
    assert Enabled(s, Tick(clock));
    s' := Step(s, Tick(clock));
    LeadsByStep(s, Tick(clock));
  }

  /** A first password change that allows one grace login, and the day after. */
  lemma FirstPassword(u: Name) returns (s: System)
    requires Occupied(u)
    ensures Leads(Init(0), s) && OneGraceLeft(s, u) && s.p == P.INIT && s.clock == DAY
    ensures s.ex.rows[u].generation == 0 && u in s.ex.allowance && s.ex.allowance[u] == 1
  {
    var s0 := PasswordOp(Init(0), ChangePassword(u, 0, DAY, 1));
    s := Wait(s0, DAY);
    LeadsOn(Init(0), s0, s);
  }

  // ---------------------------------------------------------------------
  // Hydration with a grace event pending
  // ---------------------------------------------------------------------

  /** One more hydration attempt puts the table's grace into the cache. */
  lemma HydrateAgain(s: System, u: Name) returns (s': System)
    requires OneGraceLeft(s, u)
    ensures Leads(s, s') && OneGraceLeft(s', u)
    ensures s'.p == s.p && s'.clock == s.clock && s'.ex.state == Ready
    ensures s'.ex.rows == s.ex.rows && s'.ex.allowance == s.ex.allowance
    ensures CachedRow(s'.ex.slots, u)
         == Some(ExpirySlot(u, s.ex.rows[u].mustChangeBy, s.ex.rows[u].generation, 1))
  {
    var row := s.ex.rows[u];
    var slot := ExpirySlot(u, row.mustChangeBy, row.generation, 1);
    var hydrate := HydrateExpiryCache([slot]);
    assert s.ex.rows.Keys == {u};
    assert IsRowSnapshot(s.ex.rows, [slot]);
    s' := Step(s, hydrate);
    LeadsByStep(s, hydrate);
    HydrationInstallsRows([slot], u);
  }

  /** The grace event a login of `u` on its current row records. */
  function GraceOf(s: System, id: seq<byte>, u: Name): Event
    requires u in s.ex.rows
  {
    Event(id, u, s.clock, 0, KIND_GRACE, s.ex.rows[u].generation, 0)
  }

  lemma Login(s: System, u: Name, id: seq<byte>) returns (s': System)
    requires OneGraceLeft(s, u) && s.ex.state == Ready
    requires forall i :: 0 <= i < |s.p.written| ==> s.p.written[i].id != id
    requires CachedRow(s.ex.slots, u)
          == Some(ExpirySlot(u, s.ex.rows[u].mustChangeBy, s.ex.rows[u].generation, 1))
    ensures Leads(s, s') && OneGraceLeft(s', u)
    ensures s'.ex.rows == s.ex.rows && s'.ex.allowance == s.ex.allowance && s'.clock == s.clock
    ensures var e := GraceOf(s, id, u); P.Enabled(s.p, P.Append(e)) && s'.p == P.Step(s.p, P.Append(e))
  {
    var login := GraceLogin(id, u, 0, Synced);
    assert Enabled(s, login);
    s' := Step(s, login);
    LeadsByStep(s, login);
  }

  /** One more hydration attempt and one more login: the login is admitted on a
      grace the table has not been told about yet. */
  lemma HydrateThenLogin(s: System, u: Name, id: seq<byte>) returns (s': System)
    requires OneGraceLeft(s, u)
    requires forall i :: 0 <= i < |s.p.written| ==> s.p.written[i].id != id
    ensures Leads(s, s') && OneGraceLeft(s', u)
    ensures s'.ex.rows == s.ex.rows && s'.ex.allowance == s.ex.allowance && s'.clock == s.clock
    ensures var e := GraceOf(s, id, u); P.Enabled(s.p, P.Append(e)) && s'.p == P.Step(s.p, P.Append(e))
  {
    var s1 := HydrateAgain(s, u);
    s' := Login(s1, u, id);
    LeadsOn(s, s1, s');
  }

  lemma OneMoreGrace(log: seq<Event>, e: Event)
    requires e.kind == KIND_GRACE
    ensures CountGrace(log + [e], e.user, e.generation) == CountGrace(log, e.user, e.generation) + 1
  {
    CountConcat(log, [e], e.user, e.generation);
    CountOne(e, e.user, e.generation);
  }

  /** What two durable appends do to the pipeline. */
  lemma TwoAppends(p: P.State, e1: Event, e2: Event)
    requires p.written == [] && P.Enabled(p, P.Append(e1)) && P.Enabled(P.Step(p, P.Append(e1)), P.Append(e2))
    requires e1.kind == KIND_GRACE && e2.kind == KIND_GRACE && e1.user == e2.user && e1.generation == e2.generation
    ensures var p' := P.Step(P.Step(p, P.Append(e1)), P.Append(e2));
            && p'.applied == p.applied && p'.processing == p.processing
            && (p.active.tail == 0 ==> p'.active.lost == p.active.lost)
            && CountGrace(p'.written, e1.user, e1.generation) == 2
  {
    OneMoreGrace([], e1);
    OneMoreGrace([] + [e1], e2);
  }

  /** Two hydration attempts, each followed by a login. */
  lemma HydrateAndLoginTwice(s: System, u: Name, id1: seq<byte>, id2: seq<byte>) returns (s': System)
    requires OneGraceLeft(s, u) && s.p.written == [] && id1 != id2
    ensures Leads(s, s') && s'.ex.rows == s.ex.rows && s'.ex.allowance == s.ex.allowance
    ensures s'.p.applied == s.p.applied && s'.p.processing == s.p.processing
    ensures s.p.active.tail == 0 ==> s'.p.active.lost == s.p.active.lost
    ensures CountGrace(s'.p.written, u, s.ex.rows[u].generation) == 2
  {
    var s1 := HydrateThenLogin(s, u, id1);
    s' := HydrateThenLogin(s1, u, id2);
    LeadsOn(s, s1, s');
    TwoAppends(s.p, GraceOf(s, id1, u), GraceOf(s1, id2, u));
  }

  /** `u` was recorded twice on the one grace login its password allows. */
  ghost predicate UsedTwice(s: System, u: Name) {
    && u in s.ex.rows && u in s.ex.allowance && s.ex.allowance[u] == 1
    && CountGrace(s.p.written, u, s.ex.rows[u].generation) == 2
  }

  /** Conservation fails without a clean hydration: retried hydration with a
      pending grace event lets one allowed grace login be used twice. */
  lemma RetriedHydrationOverAdmits(u: Name, id1: seq<byte>, id2: seq<byte>)
    requires Occupied(u) && id1 != id2
    ensures exists s :: Leads(Init(0), s) && UsedTwice(s, u)
  {
    var s0 := FirstPassword(u);
    var s1 := HydrateAndLoginTwice(s0, u, id1, id2);
    LeadsOn(Init(0), s0, s1);
    assert UsedTwice(s1, u);
  }

  lemma LeadsKeepsInvs(s: System)
    requires Leads(Init(0), s)
    ensures P.Inv(s.p) && Sound(s)
  {
    var acts := LeadsByRun(Init(0), s);
    InitHoldsPipeline(0);
    RunsKeepPipeline(Init(0), acts, s);
    RunsKeepSound(Init(0), acts, s);
  }

  /** The promise that a restart discards no accepted event fails here too: no
      record is torn, but the row cannot pay for the second event, and no
      continuation without a backend transaction ever applies it. */
  lemma OverAdmissionBlocksJournal(u: Name, id1: seq<byte>, id2: seq<byte>)
    requires Occupied(u) && id1 != id2
    ensures exists s :: Leads(Init(0), s) && !R.Stuck(s.p) && !PaidFor(s) && forall w :: !CanDrain(s, w)
  {
    var s0 := FirstPassword(u);
    var s1 := HydrateAndLoginTwice(s0, u, id1, id2);
    LeadsOn(Init(0), s0, s1);
    LeadsKeepsInvs(s1);
    assert s1.p.written[0..] == s1.p.written;
    assert PendingOf(s1, u) == 2;
    assert !R.Stuck(s1.p);
    forall w ensures !CanDrain(s1, w) {
      if CanDrain(s1, w) {
        DrainedIsPaid(s1, w);
      }
    }
  }

  // ---------------------------------------------------------------------
  // A generation written again
  // ---------------------------------------------------------------------

  /** Expiry is disabled and enabled again at a clock reading of `g`. */
  lemma RecreateRow(s: System, u: Name, g: int) returns (s': System)
    requires OneGraceLeft(s, u)
    ensures Leads(s, s') && s'.p == s.p && s'.clock == s.clock && s'.ex.inflight == map[]
    ensures s'.ex.rows == map[u := ExpiryRow(g, g + DAY, 1)]
    ensures u in s'.ex.allowance && s'.ex.allowance[u] == 1 + Used(s.p.written, Cut(s), u, g)
  {
    var s1 := PasswordOp(s, DisableExpiry(u));
    assert s1.ex.rows == map[];
    s' := PasswordOp(s1, ChangePassword(u, g, DAY, 1));
    LeadsOn(s, s1, s');
  }

  /** The one event in the journal is `e`, and the worker has not begun. */
  ghost predicate OnePending(p: P.State, e: Event) {
    && p.worker.Hydrating? && p.written == [e] && p.receipts == {}
    && p.processing.None? && p.active.records == [e] && p.active.tail == 0
  }

  /** The worker holds `e`, the first record of the batch. */
  ghost predicate HoldsEvent(p: P.State, e: Event) {
    && p.worker.Holding? && p.written == [e] && p.receipts == {}
    && P.HasPending(p) && P.PendingEvent(p) == e
  }

  lemma JournalStep(s: System, step: P.Action) returns (s': System)
    requires JournalOnly(step) && P.Enabled(s.p, step)
    ensures Leads(s, s') && s' == s.(p := P.Step(s.p, step))
  {
    assert Enabled(s, Journal(step));
    s' := Step(s, Journal(step));
    LeadsByStep(s, Journal(step));
  }

  lemma Start(s: System) returns (s': System)
    requires s.p.worker.Hydrating?
    ensures Leads(s, s') && s'.ex == s.ex && s'.clock == s.clock && s'.p == s.p.(worker := P.Idle)
  {
    assert Enabled(s, StartConsuming);
    s' := Step(s, StartConsuming);
    LeadsByStep(s, StartConsuming);
  }

  /** The worker takes up the batch and reads `e`. */
  lemma TakeUp(s: System, e: Event) returns (s': System)
    requires OnePending(s.p, e)
    ensures Leads(s, s') && s'.ex == s.ex && s'.clock == s.clock && HoldsEvent(s'.p, e)
  {
    var s1 := Start(s);
    var s2 := JournalStep(s1, P.Rotate);
    var s3 := JournalStep(s2, P.OpenBatch);
    s' := JournalStep(s3, P.ReadRecord);
    LeadsOn(s, s1, s2);
    LeadsOn(s, s2, s3);
    LeadsOn(s, s3, s');
  }

  lemma CommitGrace(s: System, e: Event) returns (s': System)
    requires s.p.worker.InTxn? && s.p.receipts == {} && P.HasPending(s.p) && P.PendingEvent(s.p) == e
    requires e.kind == KIND_GRACE && e.flags == 0 && Occupied(e.user) && s.ex.inflight == map[]
    requires PersistGrace(RowOf(s.ex.rows, e.user), e.generation).Persisted?
    ensures Leads(s, s') && s'.p.written == s.p.written
    ensures s'.ex == PersistInTable(s.ex, e.user, e.generation)
  {
    var commit := WorkerCommit(s.clock, Policy(3, DAY), false);
    assert Enabled(s, commit);
    s' := Step(s, commit);
    LeadsByStep(s, commit);
  }

  /** And commits it against the table. */
  lemma CommitIt(s: System, e: Event) returns (s': System)
    requires HoldsEvent(s.p, e) && s.ex.inflight == map[]
    requires e.kind == KIND_GRACE && e.flags == 0 && Occupied(e.user)
    requires PersistGrace(RowOf(s.ex.rows, e.user), e.generation).Persisted?
    ensures Leads(s, s') && s'.p.written == s.p.written
    ensures s'.ex == PersistInTable(s.ex, e.user, e.generation)
  {
    var s1 := JournalStep(s, P.BeginTxn);
    assert P.PendingEvent(s1.p) == e;
    s' := CommitGrace(s1, e);
    LeadsOn(s, s1, s');
  }

  /** A new password of `u` with the generation of the old one, whose grace event
      is still pending. */
  lemma PasswordWithOldEvent(u: Name, id: seq<byte>) returns (s: System, e: Event)
    requires Occupied(u)
    ensures Leads(Init(0), s) && s.ex.rows == map[u := ExpiryRow(0, DAY, 1)] && s.ex.inflight == map[]
    ensures OnePending(s.p, e) && IsGrace(e, u, 0) && e.flags == 0
  {
    var s0 := FirstPassword(u);
    var s1 := HydrateThenLogin(s0, u, id);
    s := RecreateRow(s1, u, 0);
    LeadsOn(Init(0), s0, s1);
    LeadsOn(Init(0), s1, s);
    e := GraceOf(s0, id, u);
    assert [] + [e] == [e];
  }

  /** Conservation fails when a generation is written again: from a reachable
      state in which `u` has just been given a new password with one grace
      login, the worker takes that grace away without any login. */
  lemma OldEventSpendsNewAllowance(u: Name, id: seq<byte>)
    requires Occupied(u)
    ensures exists s, s' ::
              && Leads(Init(0), s) && s.ex.rows == map[u := ExpiryRow(0, DAY, 1)]
              && Leads(s, s') && s'.p.written == s.p.written && s'.ex.rows == map[u := ExpiryRow(0, DAY, 0)]
  {
    var s, e := PasswordWithOldEvent(u, id);
    var s1 := TakeUp(s, e);
    var s2 := CommitIt(s1, e);
    LeadsOn(s, s1, s2);
    assert s2.ex.rows == map[u := ExpiryRow(0, DAY, 0)];
  }
}
