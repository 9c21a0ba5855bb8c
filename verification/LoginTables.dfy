/** The authoritative rows: `login_attempts` and `password_expiry`, as the SQL
    statements of the recording, clearing and password-change functions update
    them.
 */
module LoginTables {
  import opened AuthTypes
  import opened LockCache
  import opened PendingOps

  // ---------------------------------------------------------------------
  // login_attempts
  // ---------------------------------------------------------------------

  datatype AttemptRow = AttemptRow(failCount: nat, lastFail: int, lockoutUntil: Option<int>)

  /** `failed_login_max` and the lockout length in microseconds. */
  datatype Policy = Policy(threshold: int, lockoutLen: int)

  function UntilOf(row: Option<AttemptRow>): Option<int> {
    if row.Some? then row.value.lockoutUntil else None
  }

  predicate Expired(row: Option<AttemptRow>, now: int) {
    UntilOf(row).Some? && UntilOf(row).value <= now
  }

  /** `fail_count` is a 32-bit column: counting past its largest value is an
      error of the statement, and the transaction rolls back. */
  const INT4_MAX: nat := 0x7fff_ffff

  predicate CountFits(row: Option<AttemptRow>, now: int) {
    row.None? || Expired(row, now) || row.value.failCount < INT4_MAX
  }

  /** `record_failed_login`: reset an expired lockout, then insert or count. */
  function FailRow(row: Option<AttemptRow>, now: int, policy: Policy): AttemptRow {
    if row.None? then AttemptRow(1, now, None)
    else
      var count := (if Expired(row, now) then 0 else row.value.failCount) + 1;
      AttemptRow(count, now, if count >= policy.threshold then Some(now + policy.lockoutLen) else None)
  }

  /** `clear_login_attempts_internal(force = false)`: only an inactive row goes. */
  function AutoClearRow(row: Option<AttemptRow>, now: int): Option<AttemptRow> {
    if row.Some? && UntilOf(row).Some? && UntilOf(row).value > now then row else None
  }

  /** `lock_cache::decision_for`. */
  function DecisionFor(lockoutUntil: Option<int>, now: int): CacheDecision {
    if lockoutUntil.Some? && lockoutUntil.value > now then SetLock(lockoutUntil.value) else ClearLock
  }

  /** The staged decision and the seconds shown to a user never disagree. */
  lemma DecisionAgreesWithRemaining(lockoutUntil: Option<int>, now: int)
    ensures DecisionFor(lockoutUntil, now).SetLock? <==>
              lockoutUntil.Some? && RemainingSecondsCeil(lockoutUntil.value, now).Some?
    ensures DecisionFor(lockoutUntil, now) == ClearLock <==> LiveOnly(lockoutUntil, now) == None
  {
  }

  datatype LoginOp = Failed(now: int) | Succeeded(now: int) | AdminCleared(now: int)

  function LoginStep(row: Option<AttemptRow>, op: LoginOp, policy: Policy): Option<AttemptRow> {
    match op
    case Failed(now) => Some(FailRow(row, now, policy))
    case Succeeded(now) => AutoClearRow(row, now)
    case AdminCleared(_) => None
  }

  function LoginRun(row: Option<AttemptRow>, ops: seq<LoginOp>, policy: Policy): Option<AttemptRow>
    decreases |ops|
  {
    if ops == [] then row else LoginRun(LoginStep(row, ops[0], policy), ops[1..], policy)
  }

  lemma {:induction false} LoginRunSnoc(row: Option<AttemptRow>, ops: seq<LoginOp>, op: LoginOp, policy: Policy)
    ensures LoginRun(row, ops + [op], policy) == LoginStep(LoginRun(row, ops, policy), op, policy)
    decreases |ops|
  {
    if ops == [] {
      assert ([] + [op])[0] == op && ([] + [op])[1..] == [];
    } else {
      LoginRunSnoc(LoginStep(row, ops[0], policy), ops[1..], op, policy);
      assert (ops + [op])[0] == ops[0] && (ops + [op])[1..] == ops[1..] + [op];
    }
  }

  // ---------------------------------------------------------------------
  // What the rows mean: streaks of failures
  // ---------------------------------------------------------------------

  /** A streak locks once it is threshold-long. */
  predicate Locks(streak: seq<int>, policy: Policy) {
    streak != [] && |streak| >= policy.threshold
  }

  predicate LockedAt(streak: seq<int>, policy: Policy, t: int) {
    Locks(streak, policy) && t < streak[|streak| - 1] + policy.lockoutLen
  }

  /** The times of the failures since the count was last reset: by a clear, by a
      success while no lockout is active, or by a lockout that ran out before the
      next failure. */
  function Streak(ops: seq<LoginOp>, policy: Policy): seq<int> {
    if ops == [] then []
    else
      var before := Streak(ops[..|ops| - 1], policy);
      match ops[|ops| - 1]
      case AdminCleared(_) => []
      case Succeeded(t) => if LockedAt(before, policy, t) then before else []
      case Failed(t) =>
        if Locks(before, policy) && !LockedAt(before, policy, t) then [t] else before + [t]
  }

  /** The row a streak stands for. */
  ghost predicate Describes(row: Option<AttemptRow>, streak: seq<int>, policy: Policy) {
    && (row.None? <==> streak == [])
    && (row.Some? ==>
          && row.value.failCount == |streak| && row.value.lastFail == streak[|streak| - 1]
          && row.value.lockoutUntil ==
               if Locks(streak, policy) then Some(row.value.lastFail + policy.lockoutLen) else None)
  }

  /** After every run of logins the row is that of the current streak: it counts
      its failures, dates from the last of them, and is locked exactly when they
      are threshold-many, for the lockout length from the last one. */
  lemma {:induction false} RowDescribesStreak(ops: seq<LoginOp>, policy: Policy)
    requires policy.threshold >= 2
    ensures Describes(LoginRun(None, ops, policy), Streak(ops, policy), policy)
  {
    if ops != [] {
      var init, op := ops[..|ops| - 1], ops[|ops| - 1];
      RowDescribesStreak(init, policy);
      LoginRunSnoc(None, init, op, policy);
      assert ops == init + [op];
    }
  }

  /** A user is locked if and only if the current streak reaches the threshold. */
  lemma LockedIffStreakIsLong(ops: seq<LoginOp>, policy: Policy)
    requires policy.threshold >= 2
    ensures UntilOf(LoginRun(None, ops, policy)).Some? <==> |Streak(ops, policy)| >= policy.threshold
  {
    RowDescribesStreak(ops, policy);
  }

  function FailureTimes(ops: seq<LoginOp>): seq<int> {
    if ops == [] then []
    else FailureTimes(ops[..|ops| - 1]) + if ops[|ops| - 1].Failed? then [ops[|ops| - 1].now] else []
  }

  /** `ops` ends a streak: with a clear, or with a success that finds no active
      lockout. */
  predicate EndsStreak(ops: seq<LoginOp>, policy: Policy) {
    ops != [] &&
      match ops[|ops| - 1]
      case AdminCleared(_) => true
      case Succeeded(t) => !LockedAt(Streak(ops[..|ops| - 1], policy), policy, t)
      case Failed(_) => false
  }

  /** The last operation of `ops` is a failure that finds a lockout run out. */
  predicate BeginsAnew(ops: seq<LoginOp>, policy: Policy) {
    ops != [] && ops[|ops| - 1].Failed? &&
      var before := Streak(ops[..|ops| - 1], policy);
      Locks(before, policy) && !LockedAt(before, policy, ops[|ops| - 1].now)
  }

  /** `k` is where the current streak began: nothing has ended it since. */
  ghost predicate StreakBegan(ops: seq<LoginOp>, policy: Policy, k: nat) {
    && k <= |ops|
    && (k == 0 || EndsStreak(ops[..k], policy) || (k < |ops| && BeginsAnew(ops[..k + 1], policy)))
    && (forall i :: k < i <= |ops| ==> !EndsStreak(ops[..i], policy))
    && (forall i :: k + 1 < i <= |ops| ==> !BeginsAnew(ops[..i], policy))
  }

  /** One more operation that does not end the streak. */
  lemma StreakGrows(ops: seq<LoginOp>, policy: Policy)
    requires ops != [] && !EndsStreak(ops, policy)
    ensures var before := if BeginsAnew(ops, policy) then [] else Streak(ops[..|ops| - 1], policy);
            Streak(ops, policy) == before + if ops[|ops| - 1].Failed? then [ops[|ops| - 1].now] else []
  {
  }

  lemma FailureTimesSince(ops: seq<LoginOp>, k: nat)
    requires k < |ops|
    ensures FailureTimes(ops[k..]) == FailureTimes(ops[..|ops| - 1][k..])
                                      + if ops[|ops| - 1].Failed? then [ops[|ops| - 1].now] else []
  {
    assert ops[k..][..|ops| - 1 - k] == ops[..|ops| - 1][k..];
  }

  lemma StreakBeganBefore(ops: seq<LoginOp>, policy: Policy, k: nat)
    requires StreakBegan(ops, policy, k) && k < |ops| && !(k == |ops| - 1 && BeginsAnew(ops, policy))
    ensures StreakBegan(ops[..|ops| - 1], policy, k)
  {
    var n := |ops|;
    var init := ops[..n - 1];
    assert ops[..n] == ops && init[..k] == ops[..k];
    if k < n - 1 {
      assert init[..k + 1] == ops[..k + 1];
    }
    forall i | k < i <= n - 1 ensures !EndsStreak(init[..i], policy) {
      assert init[..i] == ops[..i] && !EndsStreak(ops[..i], policy);
    }
    forall i | k + 1 < i <= n - 1 ensures !BeginsAnew(init[..i], policy) {
      assert init[..i] == ops[..i] && !BeginsAnew(ops[..i], policy);
    }
  }

  /** Wherever the streak began, it is the failures since then, counted on the
      operations alone. */
  lemma {:induction false} StreakIsFailuresSince(ops: seq<LoginOp>, policy: Policy, k: nat)
    requires StreakBegan(ops, policy, k)
    ensures Streak(ops, policy) == FailureTimes(ops[k..])
    decreases |ops|
  {
    if k == |ops| {
      assert ops[..k] == ops && ops[k..] == [];
      return;
    }
    assert ops[..|ops|] == ops;
    StreakGrows(ops, policy);
    FailureTimesSince(ops, k);
    if k == |ops| - 1 && BeginsAnew(ops, policy) {
      assert ops[..|ops| - 1][k..] == [];
    } else {
      StreakBeganBefore(ops, policy, k);
      StreakIsFailuresSince(ops[..|ops| - 1], policy, k);
    }
  }

  /** A lockout is set exactly when the count reached the threshold, and then
      runs for the lockout length from the last failure. */
  ghost predicate LockedAtThreshold(row: Option<AttemptRow>, policy: Policy) {
    row.Some? ==>
      && (row.value.lockoutUntil.Some? <==> row.value.failCount >= policy.threshold)
      && (row.value.lockoutUntil.Some? ==>
            row.value.lockoutUntil == Some(row.value.lastFail + policy.lockoutLen))
  }

  lemma {:induction false} RunsLockAtThreshold(row: Option<AttemptRow>, ops: seq<LoginOp>, policy: Policy)
    requires policy.threshold >= 2 && LockedAtThreshold(row, policy)
    ensures LockedAtThreshold(LoginRun(row, ops, policy), policy)
    decreases |ops|
  {
    if ops != [] {
      RunsLockAtThreshold(LoginStep(row, ops[0], policy), ops[1..], policy);
    }
  }

  /** Every run of logins keeps the lockout exactly at the threshold if and only
      if the threshold is at least two: the first failure is inserted without
      looking at it. */
  lemma ThresholdRule(policy: Policy)
    ensures policy.threshold >= 2 <==>
              forall ops :: LockedAtThreshold(LoginRun(None, ops, policy), policy)
  {
    if policy.threshold >= 2 {
      forall ops ensures LockedAtThreshold(LoginRun(None, ops, policy), policy) {
        RunsLockAtThreshold(None, ops, policy);
      }
    } else {
      var ops := [Failed(0)];
      assert LoginRun(None, ops, policy) == LoginRun(LoginStep(None, ops[0], policy), [], policy);
      assert !LockedAtThreshold(LoginRun(None, ops, policy), policy);
    }
  }

  function FailRun(row: Option<AttemptRow>, times: seq<int>, policy: Policy): Option<AttemptRow> {
    if times == [] then row
    else Some(FailRow(FailRun(row, times[..|times| - 1], policy), times[|times| - 1], policy))
  }

  /** None of these failures arrives after a lockout has run out. */
  ghost predicate NoneExpires(row: Option<AttemptRow>, times: seq<int>, policy: Policy) {
    forall i :: 0 <= i < |times| ==> !Expired(FailRun(row, times[..i], policy), times[i])
  }

  lemma {:induction false} FailuresCount(row: Option<AttemptRow>, times: seq<int>, policy: Policy)
    requires NoneExpires(row, times, policy) && times != []
    ensures FailRun(row, times, policy).Some?
    ensures FailRun(row, times, policy).value.failCount
         == (if row.Some? then row.value.failCount else 0) + |times|
  {
    var n := |times|;
    var init := times[..n - 1];
    assert forall i :: 0 <= i < n - 1 ==> init[..i] == times[..i];
    assert !Expired(FailRun(row, times[..n - 1], policy), times[n - 1]);
    if n > 1 {
      FailuresCount(row, init, policy);
    }
  }

  /** From any earlier state, a threshold-long run of at least two failures with
      no clear and no expiry in between ends locked. */
  lemma ThresholdLongRunEndsLocked(row: Option<AttemptRow>, times: seq<int>, policy: Policy)
    requires NoneExpires(row, times, policy)
    requires |times| >= 2 && |times| >= policy.threshold
    ensures UntilOf(FailRun(row, times, policy)) == Some(times[|times| - 1] + policy.lockoutLen)
  {
    var n := |times|;
    FailuresCount(row, times, policy);
    assert forall i :: 0 <= i < n - 1 ==> times[..n - 1][..i] == times[..i];
    assert NoneExpires(row, times[..n - 1], policy);
    FailuresCount(row, times[..n - 1], policy);
  }

  function TimeOf(op: LoginOp): int {
    op.now
  }

  ghost predicate TimeOrdered(from: int, ops: seq<LoginOp>) {
    && (forall i :: 0 <= i < |ops| ==> from <= TimeOf(ops[i]))
    && (forall i, j :: 0 <= i < j < |ops| ==> TimeOf(ops[i]) <= TimeOf(ops[j]))
  }

  /** Over every time-ordered run without an administrative clear, an active
      lockout is neither removed nor shortened before it ends, whatever failures
      and successes happen meanwhile. */
  lemma {:induction false} ActiveLockoutPersists(row: Option<AttemptRow>, ops: seq<LoginOp>,
                                                 policy: Policy, until: int)
    requires policy.threshold >= 2 && LockedAtThreshold(row, policy)
    requires UntilOf(row).Some? && until <= UntilOf(row).value
    requires TimeOrdered(row.value.lastFail, ops)
    requires forall i :: 0 <= i < |ops| ==> TimeOf(ops[i]) < until && !ops[i].AdminCleared?
    ensures UntilOf(LoginRun(row, ops, policy)).Some?
    ensures until <= UntilOf(LoginRun(row, ops, policy)).value
    decreases |ops|
  {
    if ops != [] {
      assert TimeOf(ops[0]) < until;
      ActiveLockoutPersists(LoginStep(row, ops[0], policy), ops[1..], policy, until);
    }
  }

  /** A further failure keeps an active lockout exactly when the count still
      reaches the threshold in force: raising the threshold lifts it. */
  lemma FailureKeepsLockoutIff(row: AttemptRow, now: int, policy: Policy)
    requires row.lockoutUntil.Some? && row.lockoutUntil.value > now
    ensures FailRow(Some(row), now, policy).lockoutUntil.Some? <==> row.failCount + 1 >= policy.threshold
  {
  }

  // ---------------------------------------------------------------------
  // password_expiry
  // ---------------------------------------------------------------------

  datatype ExpiryRow = ExpiryRow(generation: int, mustChangeBy: int, grace: int)

  /** GREATEST(clock_timestamp(), previous last_changed + 1 microsecond). */
  function NextGeneration(row: Option<ExpiryRow>, clock: int): int {
    if row.Some? && row.value.generation + 1 > clock then row.value.generation + 1 else clock
  }

  /** What a password change promises of the row it leaves: it expires its
      lifetime after its generation, which is the clock reading or, if the clock
      does not get past it, one more than the last. */
  ghost predicate Written(before: Option<ExpiryRow>, row: ExpiryRow, clock: int, lifetime: int, grace: int) {
    && row.mustChangeBy == row.generation + lifetime && row.grace == grace
    && row.generation >= clock && (before.Some? ==> row.generation > before.value.generation)
    && (row.generation == clock || (before.Some? && row.generation == before.value.generation + 1))
  }

  lemma ChangeIsWritten(row: Option<ExpiryRow>, clock: int, lifetime: int, grace: int)
    ensures Written(row, ChangeRow(row, clock, lifetime, grace), clock, lifetime, grace)
  {
  }

  /** The upsert of `record_password_change_internal`. */
  function ChangeRow(row: Option<ExpiryRow>, clock: int, lifetime: int, grace: int): ExpiryRow {
    var generation := NextGeneration(row, clock);
    ExpiryRow(generation, generation + lifetime, grace)
  }

  datatype PersistResult = Persisted(row: Option<ExpiryRow>) | Contradiction

  /** `persist_grace_consumption`. Its query reports a stale event as -1, so a
      row that holds -1 itself is taken for one. */
  function PersistGrace(row: Option<ExpiryRow>, generation: int): PersistResult {
    if row.None? || row.value.generation != generation || row.value.grace == -1 then Persisted(row)
    else if row.value.grace > 0 then Persisted(Some(row.value.(grace := row.value.grace - 1)))
    else Contradiction
  }

  datatype PasswordOp =
    | Change(clock: int, lifetime: int, grace: int)
    | Consume(generation: int)

  function PasswordStep(row: ExpiryRow, op: PasswordOp): ExpiryRow {
    match op
    case Change(clock, lifetime, grace) => ChangeRow(Some(row), clock, lifetime, grace)
    case Consume(generation) =>
      match PersistGrace(Some(row), generation)
      case Persisted(Some(r)) => r
      case _ => row
  }

  function PasswordRun(row: ExpiryRow, ops: seq<PasswordOp>): ExpiryRow
    decreases |ops|
  {
    if ops == [] then row else PasswordRun(PasswordStep(row, ops[0]), ops[1..])
  }

  lemma {:induction false} GenerationNeverDecreases(row: ExpiryRow, ops: seq<PasswordOp>)
    ensures PasswordRun(row, ops).generation >= row.generation
    ensures (exists i :: 0 <= i < |ops| && ops[i].Change?) ==>
              PasswordRun(row, ops).generation > row.generation
    decreases |ops|
  {
    if ops != [] {
      GenerationNeverDecreases(PasswordStep(row, ops[0]), ops[1..]);
      if exists i :: 0 <= i < |ops| && ops[i].Change? {
        var i :| 0 <= i < |ops| && ops[i].Change?;
        if i > 0 {
          assert ops[1..][i - 1].Change?;
        }
      }
    }
  }

  /** Along every run that keeps the row, a password change makes the generation
      strictly greater whatever the clock reads, so a grace event queued against
      any password in force before the change leaves every later row alone. */
  lemma StaleGraceNeverApplies(row: ExpiryRow, before: seq<PasswordOp>, change: PasswordOp,
                               after: seq<PasswordOp>)
    requires change.Change?
    ensures var old' := PasswordRun(row, before);
            var now' := PasswordRun(PasswordStep(old', change), after);
            && old'.generation < now'.generation
            && forall g :: g <= old'.generation ==> PersistGrace(Some(now'), g) == Persisted(Some(now'))
  {
    var old' := PasswordRun(row, before);
    GenerationNeverDecreases(PasswordStep(old', change), after);
  }

  // ---------------------------------------------------------------------
  // The tables, updated statement by statement
  // ---------------------------------------------------------------------

  function RowOf<T>(rows: map<Name, T>, user: Name): Option<T> {
    if user in rows then Some(rows[user]) else None
  }

  function WithRow<T>(rows: map<Name, T>, user: Name, row: Option<T>): map<Name, T> {
    if row.Some? then rows[user := row.value] else rows - {user}
  }

  class LoginAttempts {
    var rows: map<Name, AttemptRow>

    /** The reset UPDATE, the upsert, and the decision read back from the row;
        no decision, and the table as it was, when the count does not fit. */
    method RecordFailure(user: Name, now: int, clock: int, policy: Policy) returns (d: Option<CacheDecision>)
      modifies this
      ensures d.Some? <==> CountFits(RowOf(old(rows), user), now)
      ensures d.Some? ==>
                && rows == old(rows)[user := FailRow(RowOf(old(rows), user), now, policy)]
                && d.value == DecisionFor(rows[user].lockoutUntil, clock)
      ensures d.None? ==> rows == old(rows)
    {
      var before := rows;
      if user in rows && Expired(Some(rows[user]), now) {
        rows := rows[user := rows[user].(failCount := 0, lockoutUntil := None)];
      }
      if user !in rows {
        rows := rows[user := AttemptRow(1, now, None)];
      } else {
        if rows[user].failCount >= INT4_MAX {
          rows := before;
          return None;
        }
        var count := rows[user].failCount + 1;
        var until := if count >= policy.threshold then Some(now + policy.lockoutLen) else None;
        rows := rows[user := AttemptRow(count, now, until)];
      }
      d := Some(DecisionFor(rows[user].lockoutUntil, clock));
    }

    /** The administrative clear takes the row whatever it says; the automatic
        one deletes only an inactive row and otherwise keeps the lockout staged
        with its exact expiry. */
    method ClearAttempts(user: Name, force: bool, now: int, clock: int) returns (d: CacheDecision)
      modifies this
      ensures rows == WithRow(old(rows), user,
                              if force then None else AutoClearRow(RowOf(old(rows), user), now))
      ensures user in rows <==> && !force && user in old(rows) && old(rows)[user].lockoutUntil.Some?
                                && old(rows)[user].lockoutUntil.value > now
      ensures user in rows ==> rows == old(rows)
      ensures d == if force then ClearLock else DecisionFor(UntilOf(RowOf(rows, user)), clock)
    {
      if force {
        rows := rows - {user};
        return ClearLock;
      }
      var activeUntil: Option<int> := None;
      if user in rows {
        var until := rows[user].lockoutUntil;
        if until.None? || until.value <= now {
          rows := rows - {user};
        } else {
          activeUntil := until;
        }
      }
      d := DecisionFor(activeUntil, clock);
    }
  }

  class PasswordExpiry {
    var rows: map<Name, ExpiryRow>

    /** A change with expiry enabled upserts the row; with expiry disabled it
        deletes it. The staged decision carries the committed values. */
    method RecordChange(user: Name, clock: int, lifetime: Option<int>, grace: int)
        returns (d: ExpiryDecision)
      modifies this
      ensures lifetime.Some? ==>
                && rows == old(rows)[user := ChangeRow(RowOf(old(rows), user), clock, lifetime.value, grace)]
                && d == SetExpiry(rows[user].mustChangeBy, rows[user].generation, rows[user].grace)
      ensures lifetime.Some? ==> Written(RowOf(old(rows), user), rows[user], clock, lifetime.value, grace)
      ensures lifetime.None? ==> rows == old(rows) - {user} && d == ClearExpiry
    {
      if lifetime.None? {
        rows := rows - {user};
        return ClearExpiry;
      }
      var generation := clock;
      if user in rows && rows[user].generation + 1 > generation {
        generation := rows[user].generation + 1;
      }
      rows := rows[user := ExpiryRow(generation, generation + lifetime.value, grace)];
      d := SetExpiry(generation + lifetime.value, generation, grace);
    }

    /** Fails, leaving the table alone, exactly on a contradiction. */
    method PersistGraceUse(user: Name, generation: int) returns (ok: bool)
      modifies this
      ensures ok <==> PersistGrace(RowOf(old(rows), user), generation).Persisted?
      ensures ok ==> rows == WithRow(old(rows), user, PersistGrace(RowOf(old(rows), user), generation).row)
      ensures !ok ==> rows == old(rows)
    {
      if user !in rows || rows[user].generation != generation || rows[user].grace == -1 {
        return true;
      }
      if rows[user].grace <= 0 {
        return false;
      }
      rows := rows[user := rows[user].(grace := rows[user].grace - 1)];
      return true;
    }
  }
}
