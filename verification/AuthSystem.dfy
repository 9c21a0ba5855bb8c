/** The whole system: the event pipeline, both tables and both caches in one
    transition system, driven by logins, backend transactions, the worker, the
    clock and crashes.
 */
module AuthSystem {
  import opened AuthTypes
  import opened LockCache
  import opened ExpiryCache
  import opened PendingOps
  import opened LoginTables
  import opened Transactions
  import opened LockCoherence
  import opened GraceLedger
  import opened RetryDegrade
  import P = EventProtocol

  /** `failures` counts the failed attempts of the event being retried and
      `degraded` the caches they demoted. */
  datatype System = System(
    p: P.State,
    lk: LockSide,
    ex: ExpirySide,
    degraded: Degraded,
    failures: nat,
    clock: int)

  function Init(clock: int): System {
    System(P.INIT, LockSide(map[], EmptyLockCache(), NotReady, map[]),
           ExpirySide(map[], map[], FreeExpirySlots(EXPIRY_CACHE_SIZE), NotReady, map[], map[]),
           NOT_DEGRADED, 0, clock)
  }

  /** How far an append got. */
  datatype AppendResult = Synced | Unsynced | Partial(bytes: nat)

  datatype SysAction =
    | Tick(clock: int)
    | RecordLogin(event: Event, result: AppendResult)
    | GraceLogin(id: seq<byte>, user: Name, flags: byte, result: AppendResult)
    | Journal(step: P.Action)
    | StartConsuming
    | LeaveConsuming(step: P.Action)
    | WorkerCommit(start: int, policy: Policy, exempt: bool)
    | WorkerRollBack
    | WorkerCallback
    | BackendCommit(start: int, subid: nat, steps: seq<TxStep>, tx: Tx)
    | ApplyLock(user: Name)
    | ApplyExpiryEntry(user: Name)
    | HydrateLock(prepared: seq<Slot>, readAt: int)
    | HydrateLockFails
    | HydrateExpiryCache(rows: seq<ExpirySlot>)
    | HydrateExpiryFails
    | StopWorker
    | Crash

  /** Steps of the pipeline that touch neither tables nor caches. */
  predicate JournalOnly(a: P.Action) {
    || a.Rotate? || a.OpenBatch? || a.ReadRecord? || a.RemoveBatch? || a.RemoveBatchFails?
    || a.DeleteReceipts? || a.DeleteReceiptsFails? || a.BeginTxn?
    || a.ResumeAfterRecovery? || a.RecoverRing? || a.RecoverRingRefused?
  }

  /** Ways out of `consume_events` that keep the worker alive. */
  predicate LeavesConsuming(a: P.Action) {
    a.ReadCorrupt? || a.ReturnToHydration? || a.SuspendOnCorrupt?
  }

  function AppendAction(e: Event, r: AppendResult): P.Action {
    match r
    case Synced => P.Append(e)
    case Unsynced => P.AppendUnsynced(e)
    case Partial(bytes) => P.AppendPartial(bytes, e.timestamp)
  }

  function GraceEvent(s: System, id: seq<byte>, user: Name, flags: byte): Event {
    var row := CachedRow(s.ex.slots, user);
    Event(id, user, s.clock, 0, 3, if row.Some? then row.value.generation else 0, flags)
  }

  /** The table operation on `login_attempts` that an event calls for. */
  function LockOpFor(e: Event, exempt: bool, policy: Policy, at: int): Option<TxOp> {
    if e.kind == KIND_FAILURE then
      if exempt then None else Some(RecordFailure(e.user, at, policy))
    else if ClearsAttempts(e) then Some(ClearInactive(e.user, at))
    else None
  }

  /** How much of the log is applied. */
  function Cut(s: System): (k: nat)
    ensures k <= |s.p.written| && (|s.p.applied| <= |s.p.written| ==> k == |s.p.applied|)
  {
    if |s.p.applied| <= |s.p.written| then |s.p.applied| else 0
  }

  function DbOf(s: System): Db {
    Db(s.lk.attempts, s.ex.rows)
  }

  /** Lock-cache side of an operation that commits on its own. */
  function CommitOne(lk: LockSide, db: Db, op: Option<TxOp>, start: int): LockSide {
    if op.None? then lk
    else
      var after := Effect(db, op.value, start);
      var d := StagedPair(after, op.value).lock;
      if d.None? then lk else CommitAttempts(lk, after.attempts, map[op.value.user := d.value])
  }

  predicate FirstTime(s: System)
    requires P.HasPending(s.p)
  {
    P.PendingEvent(s.p).id !in s.p.receipts
  }

  /** The per-user locks an operation needs are free. */
  predicate LockFree(s: System, op: TxOp) {
    if IsLockOp(op) then op.user !in s.lk.inflight else op.user !in s.ex.inflight
  }

  /** The operation of a worker commit on `login_attempts`. */
  function WorkerOp(s: System, a: SysAction): Option<TxOp>
    requires a.WorkerCommit? && P.HasPending(s.p)
  {
    LockOpFor(P.PendingEvent(s.p), a.exempt, a.policy, s.clock)
  }

  predicate WorkerCommitOk(s: System, a: SysAction)
    requires a.WorkerCommit? && P.HasPending(s.p)
  {
    var e, op := P.PendingEvent(s.p), WorkerOp(s, a);
    FirstTime(s) ==>
      && Occupied(e.user)
      && (op.Some? ==> LockFree(s, op.value) && Issuable(DbOf(s), op.value, a.start))
      && (e.kind == KIND_GRACE ==>
            && e.user !in s.ex.inflight
            && PersistGrace(RowOf(s.ex.rows, e.user), e.generation).Persisted?)
  }

  ghost predicate BackendCommitOk(s: System, a: SysAction)
    requires a.BackendCommit?
  {
    && a.start <= s.clock
    && Commits(DbOf(s), a.start, a.subid, a.steps, a.tx)
    && var ops := a.tx.ops[0];
       && ReadBy(ops, s.clock)
       && forall i :: 0 <= i < |ops| ==> Occupied(ops[i].user) && LockFree(s, ops[i])
  }

  /** The pipeline step an action performs, if any. */
  function PipelineStep(s: System, a: SysAction): Option<P.Action> {
    match a
    case RecordLogin(e, r) => Some(AppendAction(e, r))
    case GraceLogin(id, user, flags, r) => Some(AppendAction(GraceEvent(s, id, user, flags), r))
    case Journal(step) => Some(step)
    case StartConsuming => Some(P.StartConsuming)
    case LeaveConsuming(step) => Some(step)
    case WorkerCommit(_, _, _) => Some(P.CommitTxn)
    case WorkerRollBack => Some(P.RollBackTxn)
    case WorkerCallback => Some(P.CommitCallback)
    case StopWorker => Some(P.StopWorker)
    case Crash => Some(P.Crash)
    case _ => None
  }

  /** What an action needs besides its pipeline step. */
  ghost predicate Guard(s: System, a: SysAction) {
    match a
    case Tick(clock) => s.clock <= clock
    case RecordLogin(e, _) => Occupied(e.user) && KnownKind(e.kind) && KnownFlags(e.flags) && e.kind != KIND_GRACE
    case GraceLogin(_, user, flags, _) => KnownFlags(flags) && WantsGrace(s.ex.slots, s.ex.state, user, s.clock)
    case Journal(step) => JournalOnly(step)
    case LeaveConsuming(step) => LeavesConsuming(step)
    case WorkerCommit(start, _, _) => start <= s.clock && P.HasPending(s.p) && WorkerCommitOk(s, a)
    case WorkerRollBack => P.HasPending(s.p)
    case WorkerCallback => P.HasPending(s.p) && P.PendingEvent(s.p).user !in s.lk.inflight
    case BackendCommit(_, _, _, _) => BackendCommitOk(s, a)
    case ApplyLock(user) => user in s.lk.inflight
    case ApplyExpiryEntry(user) => user in s.ex.inflight
    case HydrateLock(prepared, readAt) =>
      && s.p.worker.Hydrating? && s.lk.inflight == map[] && readAt <= s.clock
      && IsSnapshot(s.lk.attempts, readAt, prepared)
    case HydrateLockFails => s.p.worker.Hydrating?
    case HydrateExpiryCache(rows) =>
      && s.p.worker.Hydrating? && s.ex.inflight == map[]
      && IsRowSnapshot(s.ex.rows, rows)
    case HydrateExpiryFails => s.p.worker.Hydrating?
    case _ => true
  }

  ghost predicate Enabled(s: System, a: SysAction) {
    Guard(s, a) && (PipelineStep(s, a).Some? ==> P.Enabled(s.p, PipelineStep(s, a).value))
  }

  function StatesOf(s: System): States {
    States(s.lk.state, s.ex.state)
  }

  function WithStates(s: System, st: States): System {
    s.(lk := s.lk.(state := st.lock), ex := s.ex.(state := st.expiry))
  }

  function Demoted(st: CacheState): CacheState {
    if st == Ready then WorkerFailed else st
  }

  /** Tables and staged decisions after the worker commits its event; a
      receipt already present means nothing is done again. */
  function CommitEvent(s: System, a: SysAction): System
    requires a.WorkerCommit? && P.HasPending(s.p) && WorkerCommitOk(s, a)
  {
    var e := P.PendingEvent(s.p);
    if !FirstTime(s) then s
    else
      s.(lk := CommitOne(s.lk, DbOf(s), WorkerOp(s, a), a.start),
         ex := if e.kind == KIND_GRACE then PersistInTable(s.ex, e.user, e.generation) else s.ex)
  }

  /** Users a list of operations names. */
  function UsersOf(ops: seq<TxOp>): set<Name> {
    set i | 0 <= i < |ops| :: ops[i].user
  }

  function StagedLocks(tx: Tx): map<Name, CacheDecision>
    requires |tx.ops| == 1
  {
    map u | u in UsersOf(tx.ops[0]) && LockOf(tx.staging.entries, u).Some?
      :: LockOf(tx.staging.entries, u).value
  }

  function StagedExpiries(tx: Tx): map<Name, ExpiryDecision>
    requires |tx.ops| == 1
  {
    map u | u in UsersOf(tx.ops[0]) && !ExpiryOf(tx.staging.entries, u).Keep?
      :: ExpiryOf(tx.staging.entries, u)
  }

  function CommitBackend(s: System, tx: Tx): System
    requires |tx.ops| == 1
  {
    s.(lk := CommitAttempts(s.lk, tx.db.attempts, StagedLocks(tx)),
       ex := CommitExpiry(s.ex, s.p.written, Cut(s), tx.db.expiry, StagedExpiries(tx)))
  }

  /** Whether the commit that ends a retry sequence finds coverage incomplete. */
  predicate EndsIncomplete(s: System) {
    s.failures > 0 && Restore(s.degraded, StatesOf(s)).1
  }

  /** The pipeline moves by its own steps; a callback that finds coverage
      incomplete also returns to hydration. */
  ghost function PipelineNext(s: System, a: SysAction): P.State
    requires Enabled(s, a)
  {
    var step := PipelineStep(s, a);
    if step.None? then s.p
    else if a.WorkerCallback? && EndsIncomplete(s) then
      P.Step(P.Step(s.p, P.CommitCallback), P.ReturnToHydration)
    else P.Step(s.p, step.value)
  }

  /** Everything but the pipeline. */
  ghost function CachesNext(s: System, a: SysAction): System
    requires Enabled(s, a)
  {
    match a
    case Tick(clock) => s.(clock := clock)
    case GraceLogin(_, user, _, r) =>
      if r.Synced? then s.(ex := TakeCachedGrace(s.ex, user))
      else if r.Unsynced? then s.(ex := StrandGrace(s.ex, user))
      else s
    case StartConsuming => s.(degraded := NOT_DEGRADED, failures := 0)
    case LeaveConsuming(_) => s.(degraded := NOT_DEGRADED, failures := 0)
    case WorkerCommit(_, _, _) => CommitEvent(s, a)
    case WorkerRollBack =>
      var (d, st) := Mark(s.degraded, StatesOf(s), AffectedBy(P.PendingEvent(s.p)));
      WithStates(s, st).(degraded := d, failures := s.failures + 1)
    case WorkerCallback =>
      if s.failures == 0 then s
      else WithStates(s, Restore(s.degraded, StatesOf(s)).0).(degraded := NOT_DEGRADED, failures := 0)
    case BackendCommit(_, _, _, tx) => CommitBackend(s, tx)
    case ApplyLock(user) => s.(lk := ApplyDecision(s.lk, user, s.clock))
    case ApplyExpiryEntry(user) => s.(ex := ApplyExpiry(s.ex, s.p.written, Cut(s), user))
    case HydrateLock(prepared, readAt) => s.(lk := HydrateLocks(s.lk, prepared, readAt, s.clock))
    case HydrateLockFails => s.(lk := s.lk.(state := NotReady))
    case HydrateExpiryCache(rows) =>
      s.(ex := HydrateExpiry(s.ex, rows, s.p.written, Cut(s)))
    case HydrateExpiryFails => s.(ex := s.ex.(state := NotReady))
    case StopWorker =>
      WithStates(s, States(Demoted(s.lk.state), Demoted(s.ex.state))).(degraded := NOT_DEGRADED, failures := 0)
    case Crash => LoseMemory(s)
    case _ => s
  }

  /** A crash loses shared memory and unfinished callbacks; tables stay. */
  ghost function LoseMemory(s: System): System {
    s.(lk := s.lk.(slots := EmptyLockCache(), state := NotReady, inflight := map[]),
       ex := LoseExpiry(s.ex, s.p.written, Cut(s)),
       degraded := NOT_DEGRADED, failures := 0)
  }

  ghost function Step(s: System, a: SysAction): System
    requires Enabled(s, a)
  {
    CachesNext(s, a).(p := PipelineNext(s, a))
  }

  ghost predicate Reaches(s: System, acts: seq<SysAction>, s': System)
    decreases |acts|
  {
    if acts == [] then s == s'
    else Enabled(s, acts[0]) && Reaches(Step(s, acts[0]), acts[1..], s')
  }
}
