/** One backend transaction: table writes and staged cache operations under
    nested savepoints. PostgreSQL restores table snapshots on rollback; the
    staging area drops and re-parents entries. The main result is that at commit
    the staged decision of every user describes that user's committed rows.
 */
module Transactions {
  import opened AuthTypes
  import opened LockCache
  import opened PendingOps
  import opened LoginTables

  datatype Db = Db(attempts: map<Name, AttemptRow>, expiry: map<Name, ExpiryRow>)

  /** `at` is the clock reading the staged decision is derived with. */
  datatype TxOp =
    | RecordFailure(user: Name, at: int, policy: Policy)
    | ClearForced(user: Name)
    | ClearInactive(user: Name, at: int)
    | ChangePassword(user: Name, clock: int, lifetime: int, grace: nat)
    | DisableExpiry(user: Name)

  predicate IsLockOp(op: TxOp) {
    op.RecordFailure? || op.ClearForced? || op.ClearInactive?
  }

  /** The writes of one operation in a transaction that began at `start`. */
  function Effect(db: Db, op: TxOp, start: int): Db {
    match op
    case RecordFailure(u, _, policy) =>
      db.(attempts := db.attempts[u := FailRow(RowOf(db.attempts, u), start, policy)])
    case ClearForced(u) => db.(attempts := db.attempts - {u})
    case ClearInactive(u, _) =>
      db.(attempts := WithRow(db.attempts, u, AutoClearRow(RowOf(db.attempts, u), start)))
    case ChangePassword(u, clock, lifetime, grace) =>
      db.(expiry := db.expiry[u := ChangeRow(RowOf(db.expiry, u), clock, lifetime, grace)])
    case DisableExpiry(u) => db.(expiry := db.expiry - {u})
  }

  /** The statement succeeds: the failure count fits its column, the threshold is
      a 32-bit parameter, and an expiry row is written only by a change with a
      positive lifetime. */
  predicate Issuable(db: Db, op: TxOp, start: int) {
    match op
    case RecordFailure(u, _, policy) =>
      CountFits(RowOf(db.attempts, u), start) && policy.threshold <= INT4_MAX
    case ChangePassword(_, _, lifetime, _) => lifetime > 0
    case _ => true
  }

  /** What the operation stages, read back from the rows it left. */
  function StagedPair(after: Db, op: TxOp): Pair {
    match op
    case RecordFailure(u, at, _) => Pair(Some(DecisionFor(UntilOf(RowOf(after.attempts, u)), at)), Keep)
    case ClearForced(u) => Pair(Some(ClearLock), Keep)
    case ClearInactive(u, at) => Pair(Some(DecisionFor(UntilOf(RowOf(after.attempts, u)), at)), Keep)
    case ChangePassword(u, _, _, _) =>
      if u in after.expiry
      then Pair(None, SetExpiry(after.expiry[u].mustChangeBy, after.expiry[u].generation, after.expiry[u].grace))
      else Pair(None, Keep)
    case DisableExpiry(u) => Pair(None, ClearExpiry)
  }

  function Fold(base: Db, ops: seq<TxOp>, start: int): Db {
    if ops == [] then base
    else Effect(Fold(base, ops[..|ops| - 1], start), ops[|ops| - 1], start)
  }

  /** The stage calls of a straight-line sequence of operations. */
  function StageCalls(base: Db, ops: seq<TxOp>, start: int): seq<(Name, Pair)> {
    if ops == [] then []
    else StageCalls(base, ops[..|ops| - 1], start)
         + [(ops[|ops| - 1].user, StagedPair(Fold(base, ops, start), ops[|ops| - 1]))]
  }

  // ---------------------------------------------------------------------
  // Transactions with savepoints
  // ---------------------------------------------------------------------

  datatype TxStep =
    | Write(op: TxOp)
    | Savepoint(subid: nat)
    | ReleaseSavepoint
    | RollbackToSavepoint

  /** `saved[i]` is the snapshot taken when level `i + 1` was opened; `ops[i]`
      lists the operations of level `i` that no rollback has undone. */
  datatype Tx = Tx(start: int, db: Db, saved: seq<Db>, ops: seq<seq<TxOp>>, staging: Staging)

  function BeginTx(base: Db, start: int, subid: nat): Tx {
    Tx(start, base, [], [[]], Begin(subid))
  }

  predicate Shaped(tx: Tx) {
    |tx.ops| > 0 && |tx.staging.levels| == |tx.ops| && |tx.saved| == |tx.ops| - 1
  }

  function StageOf(tx: Tx, step: TxStep): StageOp {
    match step
    case Write(op) => StageCall(op.user, StagedPair(Effect(tx.db, op, tx.start), op))
    case Savepoint(subid) => StartLevel(subid)
    case ReleaseSavepoint => CommitLevel
    case RollbackToSavepoint => AbortLevel
  }

  ghost predicate TxAllowed(tx: Tx, step: TxStep)
    requires Shaped(tx)
  {
    Allowed(tx.staging, StageOf(tx, step)) && (step.Write? ==> Issuable(tx.db, step.op, tx.start))
  }

  function TxPerform(tx: Tx, step: TxStep): (r: Tx)
    requires Shaped(tx)
    requires step.ReleaseSavepoint? || step.RollbackToSavepoint? ==> |tx.ops| > 1
    ensures Shaped(r)
  {
    var n := |tx.ops|;
    var staging := Perform(tx.staging, StageOf(tx, step));
    match step
    case Write(op) =>
      tx.(db := Effect(tx.db, op, tx.start), ops := tx.ops[n - 1 := tx.ops[n - 1] + [op]], staging := staging)
    case Savepoint(subid) =>
      tx.(saved := tx.saved + [tx.db], ops := tx.ops + [[]], staging := staging)
    case ReleaseSavepoint =>
      tx.(saved := tx.saved[..n - 2], ops := tx.ops[..n - 2] + [tx.ops[n - 2] + tx.ops[n - 1]],
          staging := staging)
    case RollbackToSavepoint =>
      tx.(db := tx.saved[n - 2], saved := tx.saved[..n - 2], ops := tx.ops[..n - 1], staging := staging)
  }

  ghost predicate TxRuns(tx: Tx, steps: seq<TxStep>, tx': Tx)
    requires Shaped(tx)
    decreases |steps|
  {
    if steps == [] then tx == tx'
    else TxAllowed(tx, steps[0]) && TxRuns(TxPerform(tx, steps[0]), steps[1..], tx')
  }

  lemma {:induction false} TxRunsSimulate(tx: Tx, steps: seq<TxStep>, tx': Tx)
    requires Shaped(tx) && Simulates(tx.staging) && TxRuns(tx, steps, tx')
    ensures Shaped(tx') && Simulates(tx'.staging)
    decreases |steps|
  {
    if steps != [] {
      PerformSimulates(tx.staging, StageOf(tx, steps[0]));
      TxRunsSimulate(TxPerform(tx, steps[0]), steps[1..], tx');
    }
  }

  // ---------------------------------------------------------------------
  // Tables and staging log are those of the surviving operations
  // ---------------------------------------------------------------------

  lemma {:induction false} FoldConcat(base: Db, a: seq<TxOp>, b: seq<TxOp>, start: int)
    ensures Fold(base, a + b, start) == Fold(Fold(base, a, start), b, start)
    ensures StageCalls(base, a + b, start)
         == StageCalls(base, a, start) + StageCalls(Fold(base, a, start), b, start)
  {
    if b == [] {
      assert a + b == a;
    } else {
      FoldConcat(base, a, b[..|b| - 1], start);
      assert (a + b)[..|a + b| - 1] == a + b[..|b| - 1];
    }
  }

  /** Table state when level `k` was opened, and now or when the next was. */
  function OpenedWith(base: Db, tx: Tx, k: nat): Db
    requires Shaped(tx) && k < |tx.ops|
  {
    if k == 0 then base else tx.saved[k - 1]
  }

  function ClosedWith(tx: Tx, k: nat): Db
    requires Shaped(tx) && k < |tx.ops|
  {
    if k == |tx.ops| - 1 then tx.db else tx.saved[k]
  }

  ghost predicate LevelOk(base: Db, tx: Tx, k: nat)
    requires Shaped(tx) && k < |tx.ops|
  {
    && ClosedWith(tx, k) == Fold(OpenedWith(base, tx, k), tx.ops[k], tx.start)
    && tx.staging.levels[k].log == StageCalls(OpenedWith(base, tx, k), tx.ops[k], tx.start)
  }

  /** At every level, the tables and the staging log are what the level's
      surviving operations make of the state it was opened with. */
  ghost predicate TxInv(base: Db, tx: Tx) {
    Shaped(tx) && forall k :: 0 <= k < |tx.ops| ==> LevelOk(base, tx, k)
  }

  lemma WriteKeepsInv(base: Db, tx: Tx, op: TxOp)
    requires TxInv(base, tx)
    ensures TxInv(base, TxPerform(tx, Write(op)))
  {
    var n, tx' := |tx.ops|, TxPerform(tx, Write(op));
    forall k | 0 <= k < n ensures LevelOk(base, tx', k) {
      assert LevelOk(base, tx, k);
      if k == n - 1 {
        FoldConcat(OpenedWith(base, tx, k), tx.ops[k], [op], tx.start);
        SingleOp(tx.db, op, tx.start);
      }
    }
  }

  lemma SingleOp(db: Db, op: TxOp, start: int)
    ensures Fold(db, [op], start) == Effect(db, op, start)
    ensures StageCalls(db, [op], start) == [(op.user, StagedPair(Effect(db, op, start), op))]
  {
    assert [op][..0] == [];
  }

  lemma ReleaseKeepsInv(base: Db, tx: Tx)
    requires TxInv(base, tx) && |tx.ops| > 1
    ensures TxInv(base, TxPerform(tx, ReleaseSavepoint))
  {
    var n, tx' := |tx.ops|, TxPerform(tx, ReleaseSavepoint);
    forall k | 0 <= k < n - 1 ensures LevelOk(base, tx', k) {
      assert LevelOk(base, tx, k);
      if k == n - 2 {
        assert LevelOk(base, tx, n - 1);
        FoldConcat(OpenedWith(base, tx, k), tx.ops[k], tx.ops[n - 1], tx.start);
      }
    }
  }

  lemma OpenOrRollbackKeepsInv(base: Db, tx: Tx, step: TxStep)
    requires TxInv(base, tx)
    requires step.Savepoint? || (step.RollbackToSavepoint? && |tx.ops| > 1)
    ensures TxInv(base, TxPerform(tx, step))
  {
    var tx' := TxPerform(tx, step);
    forall k | 0 <= k < |tx'.ops| ensures LevelOk(base, tx', k) {
      assert k < |tx.ops| ==> LevelOk(base, tx, k);
    }
  }

  lemma {:induction false} TxRunsKeepInv(base: Db, tx: Tx, steps: seq<TxStep>, tx': Tx)
    requires TxInv(base, tx) && TxRuns(tx, steps, tx')
    ensures TxInv(base, tx') && tx'.start == tx.start
    decreases |steps|
  {
    if steps != [] {
      TxStepKeepsInv(base, tx, steps[0]);
      TxRunsKeepInv(base, TxPerform(tx, steps[0]), steps[1..], tx');
    }
  }

  lemma TxStepKeepsInv(base: Db, tx: Tx, step: TxStep)
    requires TxInv(base, tx) && TxAllowed(tx, step)
    ensures TxInv(base, TxPerform(tx, step)) && TxPerform(tx, step).start == tx.start
  {
    match step
    case Write(op) => WriteKeepsInv(base, tx, op);
    case Savepoint(_) => OpenOrRollbackKeepsInv(base, tx, step);
    case ReleaseSavepoint => ReleaseKeepsInv(base, tx);
    case RollbackToSavepoint => OpenOrRollbackKeepsInv(base, tx, step);
  }

  /** `tx` is ready to commit: every savepoint has been released. */
  ghost predicate Commits(base: Db, start: int, subid: nat, steps: seq<TxStep>, tx: Tx) {
    TxRuns(BeginTx(base, start, subid), steps, tx) && |tx.ops| == 1
  }

  /** For every transaction, however its savepoints nest: its writes are those
      of the operations no rollback undid, in order, and the pair applied for a
      user is the one staged by the last of those operations on that user. */
  lemma {:induction false} TransactionIsItsSurvivors(base: Db, start: int, subid: nat,
                                                     steps: seq<TxStep>, tx: Tx, u: Name)
    requires Commits(base, start, subid, steps, tx)
    ensures Shaped(tx) && tx.db == Fold(base, tx.ops[0], start)
    ensures Resolved(tx.staging.entries, u) == LastOf(StageCalls(base, tx.ops[0], start), u)
  {
    var tx0 := BeginTx(base, start, subid);
    assert LevelOk(base, tx0, 0);
    TxRunsKeepInv(base, tx0, steps, tx);
    TxRunsSimulate(tx0, steps, tx);
    assert LevelOk(base, tx, 0);
    ResolvedAtTop(tx.staging, u);
  }

  lemma ResolvedAtTop(s: Staging, u: Name)
    requires Simulates(s) && |s.levels| == 1
    ensures Resolved(s.entries, u) == LastOf(s.levels[0].log, u)
  {
    assert s.levels[..1] == s.levels;
    ResolvedBelow(s, u, 1);
    assert Survivors(s.levels) == s.levels[0].log;
  }

  // ---------------------------------------------------------------------
  // The staged decisions describe the committed rows
  // ---------------------------------------------------------------------

  /** The decision tells the truth about the row from time `t` on. */
  ghost predicate Agrees(d: CacheDecision, row: Option<AttemptRow>, t: int) {
    match d
    case SetLock(e) => UntilOf(row) == Some(e)
    case ClearLock => LiveOnly(UntilOf(row), t) == None
  }

  /** The staged expiry decision is the committed row. */
  ghost predicate ExpiryAgrees(d: ExpiryDecision, row: Option<ExpiryRow>) {
    match d
    case Keep => false
    case SetExpiry(m, g, grace) => row == Some(ExpiryRow(g, m, grace)) && grace >= 0
    case ClearExpiry => row == None
  }

  predicate LockOpOn(op: TxOp, u: Name) {
    op.user == u && IsLockOp(op)
  }

  predicate ExpiryOpOn(op: TxOp, u: Name) {
    op.user == u && !IsLockOp(op)
  }

  predicate HasLockOp(ops: seq<TxOp>, u: Name) {
    exists i :: 0 <= i < |ops| && LockOpOn(ops[i], u)
  }

  predicate HasExpiryOp(ops: seq<TxOp>, u: Name) {
    exists i :: 0 <= i < |ops| && ExpiryOpOn(ops[i], u)
  }

  lemma HasOpSnoc(ops: seq<TxOp>, op: TxOp, u: Name)
    ensures HasLockOp(ops + [op], u) <==> HasLockOp(ops, u) || LockOpOn(op, u)
    ensures HasExpiryOp(ops + [op], u) <==> HasExpiryOp(ops, u) || ExpiryOpOn(op, u)
  {
    var all := ops + [op];
    assert forall i :: 0 <= i < |ops| ==> all[i] == ops[i];
    assert all[|ops|] == op;
    if HasLockOp(ops, u) {
      var i :| 0 <= i < |ops| && LockOpOn(ops[i], u);
      assert LockOpOn(all[i], u);
    }
    if HasExpiryOp(ops, u) {
      var i :| 0 <= i < |ops| && ExpiryOpOn(ops[i], u);
      assert ExpiryOpOn(all[i], u);
    }
  }

  /** Clock readings no later than `now`. */
  predicate ReadBy(ops: seq<TxOp>, now: int) {
    forall i :: 0 <= i < |ops| ==>
      (ops[i].RecordFailure? ==> ops[i].at <= now) && (ops[i].ClearInactive? ==> ops[i].at <= now)
  }

  /** The last stage call on `u` is that of the last operation, if it is on `u`. */
  lemma LastCall(base: Db, ops: seq<TxOp>, start: int, u: Name)
    requires ops != []
    ensures var init, op := ops[..|ops| - 1], ops[|ops| - 1];
            LastOf(StageCalls(base, ops, start), u) ==
              if op.user == u then Some(StagedPair(Fold(base, ops, start), op))
              else LastOf(StageCalls(base, init, start), u)
  {
    var init, op := ops[..|ops| - 1], ops[|ops| - 1];
    LastOfConcat(StageCalls(base, init, start), [(op.user, StagedPair(Fold(base, ops, start), op))], u);
    assert [(op.user, StagedPair(Fold(base, ops, start), op))][..0] == [];
  }

  /** Whatever the operations are, a lock decision left staged for `u` is true of
      the row they leave, and only lock operations on `u` touch that row. */
  lemma {:induction false} LockOpsAgree(base: Db, ops: seq<TxOp>, start: int, u: Name, now: int)
    requires ReadBy(ops, now)
    ensures var row, last := RowOf(Fold(base, ops, start).attempts, u), LastOf(StageCalls(base, ops, start), u);
            && (!HasLockOp(ops, u) ==> row == RowOf(base.attempts, u))
            && (last.Some? && last.value.lock.Some? ==> Agrees(last.value.lock.value, row, now))
  {
    if ops != [] {
      var init, op := ops[..|ops| - 1], ops[|ops| - 1];
      assert ops == init + [op];
      LockOpsAgree(base, init, start, u, now);
      LastCall(base, ops, start, u);
      HasOpSnoc(init, op, u);
    }
  }

  /** Likewise for the expiry row. */
  lemma {:induction false} ExpiryOpsAgree(base: Db, ops: seq<TxOp>, start: int, u: Name)
    ensures var row, last := RowOf(Fold(base, ops, start).expiry, u), LastOf(StageCalls(base, ops, start), u);
            && (!HasExpiryOp(ops, u) ==> row == RowOf(base.expiry, u))
            && (last.Some? && last.value.expiry != Keep ==> ExpiryAgrees(last.value.expiry, row))
  {
    if ops != [] {
      var init, op := ops[..|ops| - 1], ops[|ops| - 1];
      assert ops == init + [op];
      ExpiryOpsAgree(base, init, start, u);
      LastCall(base, ops, start, u);
      HasOpSnoc(init, op, u);
    }
  }

  // ---------------------------------------------------------------------
  // Which half of the pair is staged
  // ---------------------------------------------------------------------

  /** Commit-time staging of one user, lock half. */
  function LockOf(entries: seq<Entry>, u: Name): Option<CacheDecision> {
    var p := Resolved(entries, u);
    if p.Some? then p.value.lock else None
  }

  /** Commit-time staging of one user, expiry half. */
  function ExpiryOf(entries: seq<Entry>, u: Name): ExpiryDecision {
    var p := Resolved(entries, u);
    if p.Some? then p.value.expiry else Keep
  }

  /** The last operation on `u`. */
  function LastOpOn(ops: seq<TxOp>, u: Name): Option<TxOp> {
    if ops == [] then None
    else if ops[|ops| - 1].user == u then Some(ops[|ops| - 1])
    else LastOpOn(ops[..|ops| - 1], u)
  }

  predicate EndsWithLockOp(ops: seq<TxOp>, u: Name) {
    LastOpOn(ops, u).Some? && IsLockOp(LastOpOn(ops, u).value)
  }

  predicate EndsWithExpiryOp(ops: seq<TxOp>, u: Name) {
    LastOpOn(ops, u).Some? && !IsLockOp(LastOpOn(ops, u).value)
  }

  lemma {:induction false} LastCallIsLastOp(base: Db, ops: seq<TxOp>, start: int, u: Name)
    ensures var last := LastOf(StageCalls(base, ops, start), u);
            && (EndsWithLockOp(ops, u) <==> last.Some? && last.value.lock.Some?)
            && (EndsWithExpiryOp(ops, u) <==> last.Some? && last.value.expiry != Keep)
            && (EndsWithLockOp(ops, u) ==> HasLockOp(ops, u))
            && (EndsWithExpiryOp(ops, u) ==> HasExpiryOp(ops, u))
  {
    if ops != [] {
      var init, op := ops[..|ops| - 1], ops[|ops| - 1];
      assert ops == init + [op];
      LastCall(base, ops, start, u);
      HasOpSnoc(init, op, u);
      if op.user != u {
        LastCallIsLastOp(base, init, start, u);
      }
    }
  }

  /** Exactly when a lock decision is staged: the last surviving operation on
      the user is a lock operation. A password change after a recorded failure
      in the same transaction replaces the whole staged pair. */
  lemma {:induction false} LockStagedIff(base: Db, start: int, subid: nat, steps: seq<TxStep>, tx: Tx, u: Name)
    requires Commits(base, start, subid, steps, tx)
    ensures LockOf(tx.staging.entries, u).Some? <==> EndsWithLockOp(tx.ops[0], u)
  {
    TransactionIsItsSurvivors(base, start, subid, steps, tx, u);
    LastCallIsLastOp(base, tx.ops[0], start, u);
  }

  /** And an expiry decision exactly when it is a password operation. */
  lemma {:induction false} ExpiryStagedIff(base: Db, start: int, subid: nat, steps: seq<TxStep>, tx: Tx, u: Name)
    requires Commits(base, start, subid, steps, tx)
    ensures !ExpiryOf(tx.staging.entries, u).Keep? <==> EndsWithExpiryOp(tx.ops[0], u)
  {
    TransactionIsItsSurvivors(base, start, subid, steps, tx, u);
    LastCallIsLastOp(base, tx.ops[0], start, u);
  }

  /** The lock half is not lost: a user with a lock operation ends with one. */
  predicate LockCovered(ops: seq<TxOp>, u: Name) {
    HasLockOp(ops, u) ==> EndsWithLockOp(ops, u)
  }

  predicate ExpiryCovered(ops: seq<TxOp>, u: Name) {
    HasExpiryOp(ops, u) ==> EndsWithExpiryOp(ops, u)
  }

  /** For every committing transaction, whatever was rolled back on the way:
      each staged decision is true of the committed row; and a decision that is
      missing means an unchanged row unless that half of the pair was lost. */
  lemma {:induction false} StagedDecisionsAgree(base: Db, start: int, subid: nat, steps: seq<TxStep>,
                                                tx: Tx, u: Name, now: int)
    requires Commits(base, start, subid, steps, tx) && ReadBy(tx.ops[0], now)
    ensures match LockOf(tx.staging.entries, u)
            case None => LockCovered(tx.ops[0], u) ==> RowOf(tx.db.attempts, u) == RowOf(base.attempts, u)
            case Some(d) => HasLockOp(tx.ops[0], u) && Agrees(d, RowOf(tx.db.attempts, u), now)
    ensures match ExpiryOf(tx.staging.entries, u)
            case Keep => ExpiryCovered(tx.ops[0], u) ==> RowOf(tx.db.expiry, u) == RowOf(base.expiry, u)
            case d => HasExpiryOp(tx.ops[0], u) && ExpiryAgrees(d, RowOf(tx.db.expiry, u))
  {
    TransactionIsItsSurvivors(base, start, subid, steps, tx, u);
    LastCallIsLastOp(base, tx.ops[0], start, u);
    LockOpsAgree(base, tx.ops[0], start, u, now);
    ExpiryOpsAgree(base, tx.ops[0], start, u);
  }

  /** A transaction of two operations on one user. */
  lemma TwoWrites(base: Db, start: int, subid: nat, first: TxOp, second: TxOp) returns (steps: seq<TxStep>, tx: Tx)
    requires first.user == second.user
    requires Issuable(base, first, start) && Issuable(Effect(base, first, start), second, start)
    ensures Commits(base, start, subid, steps, tx) && tx.ops[0] == [first, second]
    ensures tx.db == Effect(Effect(base, first, start), second, start)
  {
    var tx0 := BeginTx(base, start, subid);
    var tx1 := TxPerform(tx0, Write(first));
    tx := TxPerform(tx1, Write(second));
    steps := [Write(first), Write(second)];
    assert TxAllowed(tx0, Write(first)) && TxAllowed(tx1, Write(second));
    assert TxRuns(tx, [], tx) && steps[1..] == [Write(second)] && [Write(second)][1..] == [];
    assert TxRuns(tx1, [Write(second)], tx);
    assert [] + [first] == [first] && [first] + [second] == [first, second];
  }

  /** Losing the lock half: whenever a failure locks the account and the same
      transaction then changes the password, the committed row carries a new
      lockout and no lock decision is staged. */
  lemma MixedTransactionDropsLock(base: Db, start: int, subid: nat, u: Name, at: int, policy: Policy,
                                  clock: int, lifetime: int, grace: nat)
      returns (steps: seq<TxStep>, tx: Tx)
    requires Issuable(base, RecordFailure(u, at, policy), start) && lifetime > 0
    requires FailRow(RowOf(base.attempts, u), start, policy).lockoutUntil.Some?
    ensures Commits(base, start, subid, steps, tx)
    ensures UntilOf(RowOf(tx.db.attempts, u)) == Some(start + policy.lockoutLen)
    ensures LockOf(tx.staging.entries, u) == None
  {
    var first, second := RecordFailure(u, at, policy), ChangePassword(u, clock, lifetime, grace);
    steps, tx := TwoWrites(base, start, subid, first, second);
    LockStagedIff(base, start, subid, steps, tx, u);
  }

  /** Losing the expiry half: whenever a password change is followed by a lock
      operation, the committed row has a new generation and no expiry decision
      is staged. */
  lemma MixedTransactionDropsExpiry(base: Db, start: int, subid: nat, u: Name,
                                    clock: int, lifetime: int, grace: nat, op: TxOp)
      returns (steps: seq<TxStep>, tx: Tx)
    requires lifetime > 0 && LockOpOn(op, u) && Issuable(base, op, start)
    ensures Commits(base, start, subid, steps, tx) && u in tx.db.expiry
    ensures u in base.expiry ==> tx.db.expiry[u].generation > base.expiry[u].generation
    ensures ExpiryOf(tx.staging.entries, u) == Keep
  {
    var first := ChangePassword(u, clock, lifetime, grace);
    steps, tx := TwoWrites(base, start, subid, first, op);
    ExpiryStagedIff(base, start, subid, steps, tx, u);
  }

  // ---------------------------------------------------------------------
  // What operations can make of a row
  // ---------------------------------------------------------------------

  predicate IsFailureOf(op: TxOp, u: Name) {
    op.RecordFailure? && op.user == u
  }

  /** Only a recorded failure gives a user a row it did not have. */
  lemma {:induction false} ChangedRowHasFailure(base: Db, ops: seq<TxOp>, start: int, u: Name)
    ensures || RowOf(Fold(base, ops, start).attempts, u) in {None, RowOf(base.attempts, u)}
            || exists i :: 0 <= i < |ops| && IsFailureOf(ops[i], u)
  {
    if ops != [] {
      var n, init := |ops|, ops[..|ops| - 1];
      ChangedRowHasFailure(base, init, start, u);
      if i :| 0 <= i < |init| && IsFailureOf(init[i], u) {
        assert IsFailureOf(ops[i], u);
      }
      assert IsFailureOf(ops[n - 1], u) ==> exists i :: 0 <= i < |ops| && IsFailureOf(ops[i], u);
    }
  }

  /** One lockout length throughout. */
  predicate FixedLength(ops: seq<TxOp>, lockoutLen: int) {
    forall i :: 0 <= i < |ops| && ops[i].RecordFailure? ==> ops[i].policy.lockoutLen == lockoutLen
  }

  /** A row is gone, as it was, or that of a failure of this transaction. */
  ghost predicate RowFrom(before: Option<AttemptRow>, after: Option<AttemptRow>, start: int, lockoutLen: int) {
    || after == None
    || after == before
    || (after.value.lastFail == start && UntilOf(after) in {None, Some(start + lockoutLen)})
  }

  lemma {:induction false} RowsComeFrom(base: Db, ops: seq<TxOp>, start: int, u: Name, lockoutLen: int)
    requires FixedLength(ops, lockoutLen)
    ensures RowFrom(RowOf(base.attempts, u), RowOf(Fold(base, ops, start).attempts, u), start, lockoutLen)
  {
    if ops != [] {
      RowsComeFrom(base, ops[..|ops| - 1], start, u, lockoutLen);
    }
  }

  /** No password row is deleted. */
  predicate KeepsRows(ops: seq<TxOp>) {
    forall i :: 0 <= i < |ops| ==> !ops[i].DisableExpiry?
  }

  /** Then generations never decrease, and a password operation makes its user's
      strictly greater whatever the clock reads. */
  lemma {:induction false} KeptGenerationsGrow(base: Db, ops: seq<TxOp>, start: int, u: Name)
    requires KeepsRows(ops)
    ensures var db := Fold(base, ops, start);
            && (u in base.expiry ==> u in db.expiry && db.expiry[u].generation >= base.expiry[u].generation)
            && (HasExpiryOp(ops, u) ==>
                  u in db.expiry && (u in base.expiry ==> db.expiry[u].generation > base.expiry[u].generation))
  {
    if ops != [] {
      var init, op := ops[..|ops| - 1], ops[|ops| - 1];
      assert ops == init + [op];
      KeptGenerationsGrow(base, init, start, u);
      HasOpSnoc(init, op, u);
    }
  }

  /** When the last operation on `u` is a password change, the row it leaves
      expires its lifetime after its generation and has its grace. */
  lemma {:induction false} LastChangeIsWritten(base: Db, ops: seq<TxOp>, start: int, u: Name)
    requires LastOpOn(ops, u).Some? && LastOpOn(ops, u).value.ChangePassword?
    ensures var op, rows := LastOpOn(ops, u).value, Fold(base, ops, start).expiry;
            && u in rows && rows[u].mustChangeBy == rows[u].generation + op.lifetime
            && rows[u].grace == op.grace && rows[u].generation >= op.clock
  {
    var init, op := ops[..|ops| - 1], ops[|ops| - 1];
    if op.user == u {
      ChangeIsWritten(RowOf(Fold(base, init, start).expiry, u), op.clock, op.lifetime, op.grace);
    } else {
      LastChangeIsWritten(base, init, start, u);
    }
  }

  // ---------------------------------------------------------------------
  // What every transaction keeps of the tables
  // ---------------------------------------------------------------------

  /** A count that cannot be raised carries a lockout, so it is reset in time. */
  predicate AttemptOk(row: AttemptRow) {
    row.failCount <= INT4_MAX && (row.failCount == INT4_MAX ==> row.lockoutUntil.Some?)
  }

  ghost predicate TablesOk(db: Db) {
    && (forall u :: u in db.attempts ==> AttemptOk(db.attempts[u]))
    && (forall u :: u in db.expiry ==> db.expiry[u].grace >= 0)
  }

  lemma EffectKeepsTables(db: Db, op: TxOp, start: int)
    requires TablesOk(db) && Issuable(db, op, start)
    ensures TablesOk(Effect(db, op, start))
  {
  }

  lemma {:induction false} TxRunsKeepTables(tx: Tx, steps: seq<TxStep>, tx': Tx)
    requires Shaped(tx) && TxRuns(tx, steps, tx')
    requires TablesOk(tx.db) && forall i :: 0 <= i < |tx.saved| ==> TablesOk(tx.saved[i])
    ensures TablesOk(tx'.db)
    decreases |steps|
  {
    if steps != [] {
      if steps[0].Write? {
        EffectKeepsTables(tx.db, steps[0].op, tx.start);
      }
      TxRunsKeepTables(TxPerform(tx, steps[0]), steps[1..], tx');
    }
  }
}
