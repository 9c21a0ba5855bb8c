/** The durable event pipeline as a transition system: producers that append to
    the journal and offer to the ring under one lock, and one worker that
    rotates, replays, commits each effect with a receipt, acknowledges, deletes
    the batch and then the receipts. A crash can happen between any two steps.
 */
module EventProtocol {
  import opened AuthTypes
  import opened EventRing
  import opened Journal
  import opened JournalFiles

  /** Where the worker is; `pos` counts the records read from the batch. */
  datatype Worker =
    | Hydrating
    | Idle
    | Reading(pos: nat)
    | Holding(pos: nat)
    | InTxn(pos: nat, token: Option<ClaimToken>)
    | Committed(pos: nat, token: Option<ClaimToken>)
    | Cleanup
    | Suspended
    | Stopped

  /** `written`, `removed` and `applied` are histories: every complete record
      that ever reached the journal, the records of deleted batches, and the
      events whose database effect has been committed. */
  datatype State = State(
    written: seq<Event>,
    removed: seq<Event>,
    applied: seq<Event>,
    active: File,
    processing: Option<File>,
    receipts: set<seq<byte>>,
    ring: Queue,
    worker: Worker)

  const INIT: State := State([], [], [], EMPTY_FILE, None, {}, NEW_QUEUE, Hydrating)

  datatype Action =
    | Append(event: Event)                    // durable append, then the ring
    | AppendUnsynced(event: Event)            // whole record in the file, sync failed
    | AppendPartial(bytes: nat, now: int)     // only part of a record got in
    | Rotate
    | OpenBatch
    | ReadRecord
    | ReadCorrupt
    | RemoveBatch
    | RemoveBatchFails
    | DeleteReceipts
    | DeleteReceiptsFails
    | BeginTxn
    | CommitTxn
    | RollBackTxn
    | CommitCallback
    | ReturnToHydration
    | StartConsuming
    | SuspendOnCorrupt
    | ResumeAfterRecovery
    | RecoverRing
    | RecoverRingRefused
    | StopWorker
    | Crash

  function Records(p: Option<File>): seq<Event> {
    if p.Some? then p.value.records else []
  }

  function Unreadable(p: Option<File>): seq<Event> {
    if p.Some? then p.value.lost else []
  }

  /** The worker holds the event it last read. */
  predicate HasPending(s: State) {
    && (s.worker.Holding? || s.worker.InTxn? || s.worker.Committed?)
    && 0 < s.worker.pos <= |Records(s.processing)|
  }

  function PendingEvent(s: State): Event
    requires HasPending(s)
  {
    Records(s.processing)[s.worker.pos - 1]
  }

  /** At the top of the worker's loop, between transactions. */
  predicate AtLoopTop(s: State) {
    s.worker.Idle? || s.worker.Reading? || s.worker.Holding?
  }

  predicate AtBatchEnd(s: State) {
    s.worker.Reading? && s.processing.Some? && s.worker.pos == |s.processing.value.records|
  }

  /** `verify_pending` on one file: every whole block decodes. */
  predicate Verifies(p: Option<File>) {
    p.Some? ==> p.value.tail < RECORD_SIZE
  }

  ghost predicate FreshId(s: State, e: Event) {
    forall i :: 0 <= i < |s.written| ==> s.written[i].id != e.id
  }

  ghost predicate Enabled(s: State, a: Action) {
    match a
    case Append(e) => FreshId(s, e) && e.seqNo == 0
    case AppendUnsynced(e) => FreshId(s, e) && e.seqNo == 0
    case AppendPartial(bytes, _) => bytes < RECORD_SIZE
    case Rotate => s.worker.Idle? && s.processing.None? && FileSize(s.active) > 0
    case OpenBatch => s.worker.Idle? && s.processing.Some?
    case ReadRecord =>
      s.worker.Reading? && s.processing.Some? && s.worker.pos < |s.processing.value.records|
    case ReadCorrupt => AtBatchEnd(s) && s.processing.value.tail >= RECORD_SIZE
    case RemoveBatch => AtBatchEnd(s) && s.processing.value.tail < RECORD_SIZE
    case RemoveBatchFails => AtBatchEnd(s) && s.processing.value.tail < RECORD_SIZE
    case DeleteReceipts => s.worker.Cleanup?
    case DeleteReceiptsFails => s.worker.Cleanup?
    case BeginTxn => s.worker.Holding? && HasPending(s)
    case CommitTxn => s.worker.InTxn? && HasPending(s)
    case RollBackTxn => s.worker.InTxn?
    case CommitCallback => s.worker.Committed?
    case ReturnToHydration => AtLoopTop(s)
    case StartConsuming => s.worker.Hydrating?
    case SuspendOnCorrupt => AtLoopTop(s) && s.ring.state == Corrupt
    case ResumeAfterRecovery => s.worker.Suspended? && s.ring.state != Corrupt
    case RecoverRing => s.ring.state == Corrupt && Verifies(s.processing) && Verifies(Some(s.active))
    case RecoverRingRefused =>
      s.ring.state == Corrupt && !(Verifies(s.processing) && Verifies(Some(s.active)))
    case StopWorker => !s.worker.Committed?
    case Crash => true
  }

  function Opened(p: Option<File>): Option<File> {
    if p.Some? then Some(FileOpened(p.value)) else None
  }

  function Step(s: State, a: Action): State
    requires Enabled(s, a)
  {
    match a
    case Append(e) =>
      s.(written := s.written + [e], active := FileAppend(s.active, e), ring := Enqueue(s.ring, e).0)
    case AppendUnsynced(e) =>
      s.(written := s.written + [e], active := FileAppend(s.active, e),
         ring := AppendFailed(s.ring, e.timestamp).0)
    case AppendPartial(bytes, now) =>
      s.(active := FileAppendPart(s.active, bytes), ring := AppendFailed(s.ring, now).0)
    case Rotate => s.(processing := Some(s.active), active := EMPTY_FILE)
    case OpenBatch => s.(processing := Opened(s.processing), worker := Reading(0))
    case ReadRecord => s.(worker := Holding(s.worker.pos + 1))
    case ReadCorrupt => s.(ring := s.ring.(state := Corrupt), worker := Suspended)
    case RemoveBatch =>
      s.(removed := s.removed + s.processing.value.records, processing := None, worker := Cleanup)
    case RemoveBatchFails => s.(worker := Idle)
    case DeleteReceipts => s.(receipts := {}, worker := Idle)
    case DeleteReceiptsFails => s.(worker := Idle)
    case BeginTxn =>
      s.(worker := InTxn(s.worker.pos, MatchingClaim(s.ring, PendingEvent(s).id)))
    case CommitTxn =>
      var e := PendingEvent(s);
      s.(applied := if e.id in s.receipts then s.applied else s.applied + [e],
         receipts := s.receipts + {e.id},
         worker := Committed(s.worker.pos, s.worker.token))
    case RollBackTxn => s.(worker := Holding(s.worker.pos))
    case CommitCallback =>
      s.(ring := if s.worker.token.Some? then AckClaim(s.ring, s.worker.token.value).0 else s.ring,
         worker := Reading(s.worker.pos))
    case ReturnToHydration => s.(worker := Hydrating)
    case StartConsuming => s.(worker := Idle)
    case SuspendOnCorrupt => s.(worker := Suspended)
    case ResumeAfterRecovery => s.(worker := Hydrating)
    case RecoverRing =>
      s.(ring := NEW_QUEUE, active := FileOpened(s.active), processing := Opened(s.processing))
    case RecoverRingRefused =>
      s.(active := if Verifies(s.processing) then FileOpened(s.active) else s.active,
         processing := Opened(s.processing))
    case StopWorker => s.(worker := Stopped)
    case Crash => s.(ring := NEW_QUEUE, worker := Hydrating)
  }

  /** `acts` leads from `s` to `s'`. */
  ghost predicate Reaches(s: State, acts: seq<Action>, s': State)
    decreases |acts|
  {
    if acts == [] then s == s'
    else Enabled(s, acts[0]) && Reaches(Step(s, acts[0]), acts[1..], s')
  }

  // ---------------------------------------------------------------------
  // Exactly once, in order
  // ---------------------------------------------------------------------

  ghost predicate DistinctIds(es: seq<Event>) {
    forall i, j :: 0 <= i < j < |es| ==> es[i].id != es[j].id
  }

  /** The journal is the written log minus the deleted batches, and the applied
      events are a prefix of it that covers every deleted batch and reaches at
      most to the end of the current one. */
  ghost predicate LogInv(s: State) {
    && s.written == s.removed + Records(s.processing) + Unreadable(s.processing)
                    + s.active.records + s.active.lost
    && DistinctIds(s.written)
    && (forall i :: 0 <= i < |s.written| ==> s.written[i].seqNo == 0)
    && |s.removed| <= |s.applied| <= |s.removed| + |Records(s.processing)|
    && s.applied <= s.written
    && (s.active.lost != [] ==> s.active.tail >= RECORD_SIZE)
    && (Unreadable(s.processing) != [] ==> s.processing.value.tail >= RECORD_SIZE)
  }

  /** A receipt is only ever for an applied event, and every applied event of
      the batch still on disk has one. */
  ghost predicate ReceiptInv(s: State) {
    && (forall id :: id in s.receipts ==> exists i :: 0 <= i < |s.applied| && s.applied[i].id == id)
    && (s.processing.Some? ==>
          forall i :: |s.removed| <= i < |s.applied| ==> s.applied[i].id in s.receipts)
  }

  /** The worker never runs ahead of what is applied. */
  ghost predicate WorkerInv(s: State) {
    match s.worker
    case Reading(pos) =>
      s.processing.Some? && pos <= |Records(s.processing)| && |s.removed| + pos <= |s.applied|
    case Holding(pos) =>
      s.processing.Some? && HasPending(s) && |s.removed| + pos - 1 <= |s.applied|
    case InTxn(pos, _) =>
      s.processing.Some? && HasPending(s) && |s.removed| + pos - 1 <= |s.applied|
    case Committed(pos, _) =>
      s.processing.Some? && HasPending(s) && |s.removed| + pos <= |s.applied|
    case Cleanup => s.processing.None?
    case _ => true
  }

  ghost predicate Inv(s: State) {
    LogInv(s) && ReceiptInv(s) && WorkerInv(s)
  }

  lemma AppendKeepsInv(s: State, a: Action)
    requires Inv(s) && Enabled(s, a)
    requires a.Append? || a.AppendUnsynced? || a.AppendPartial?
    ensures Inv(Step(s, a))
  {
    var s' := Step(s, a);
    if !a.AppendPartial? {
      var front := s.removed + Records(s.processing) + Unreadable(s.processing);
      if s.active.tail == 0 {
        assert s.active.lost == [];
        assert front + s.active.records + [] == front + s.active.records;
        assert s'.written == front + (s.active.records + [a.event]) + [];
      } else {
        assert s'.written == front + s.active.records + (s.active.lost + [a.event]);
      }
    }
  }

  /** The pending record's place in the log. */
  lemma PendingPlace(s: State)
    requires LogInv(s) && HasPending(s)
    ensures var k := |s.removed| + s.worker.pos - 1;
            k < |s.written| && s.written[k] == PendingEvent(s)
  {
    var k := |s.removed| + s.worker.pos - 1;
    assert s.written[k] == (s.removed + Records(s.processing))[k];
  }

  /** The receipt decides exactly: it is present if and only if the pending
      event has been applied, and otherwise that event is the next one due. */
  lemma ReceiptDecides(s: State)
    requires Inv(s) && s.worker.InTxn?
    ensures var k := |s.removed| + s.worker.pos - 1;
            PendingEvent(s).id in s.receipts <==> k < |s.applied|
    ensures PendingEvent(s).id !in s.receipts ==>
              |s.applied| == |s.removed| + s.worker.pos - 1
              && |s.applied| < |s.written| && s.written[|s.applied|] == PendingEvent(s)
  {
    PendingPlace(s);
    var k := |s.removed| + s.worker.pos - 1;
    if PendingEvent(s).id in s.receipts {
      var i :| 0 <= i < |s.applied| && s.applied[i].id == PendingEvent(s).id;
      assert s.written[i].id == s.written[k].id;
    }
  }

  lemma CommitKeepsInv(s: State)
    requires Inv(s) && Enabled(s, CommitTxn)
    ensures Inv(Step(s, CommitTxn))
  {
    ReceiptDecides(s);
    var s', e := Step(s, CommitTxn), PendingEvent(s);
    if e.id !in s.receipts {
      assert s'.applied == s.written[..|s.applied| + 1];
      assert s'.applied[|s.applied|].id == e.id;
    }
    forall id | id in s'.receipts
      ensures exists i :: 0 <= i < |s'.applied| && s'.applied[i].id == id
    {
      if id in s.receipts {
        var i :| 0 <= i < |s.applied| && s.applied[i].id == id;
        assert s'.applied[i].id == id;
      }
    }
  }

  /** A commit applies exactly the next event of the log, or nothing. */
  lemma CommitMovesLog(s: State)
    requires Inv(s) && Enabled(s, CommitTxn)
    ensures var s', k := Step(s, CommitTxn), |s.applied|;
            && s'.written == s.written
            && (PendingEvent(s).id in s.receipts ==> s'.applied == s.applied)
            && (PendingEvent(s).id !in s.receipts ==>
                  k < |s.written| && s.written[k] == PendingEvent(s) && s'.applied == s.applied + [s.written[k]])
  {
    ReceiptDecides(s);
  }

  lemma RemoveKeepsInv(s: State)
    requires Inv(s) && Enabled(s, RemoveBatch)
    ensures Inv(Step(s, RemoveBatch))
    ensures Step(s, RemoveBatch).removed == s.applied
  {
    var s' := Step(s, RemoveBatch);
    assert Unreadable(s.processing) == [];
    assert s.removed + s.processing.value.records + [] == s'.removed;
    assert s'.removed + [] + [] == s'.removed;
    assert s'.removed == s.written[..|s.applied|];
  }

  lemma RotateKeepsInv(s: State)
    requires Inv(s) && Enabled(s, Rotate)
    ensures Inv(Step(s, Rotate))
  {
    var s' := Step(s, Rotate);
    var r := s.active.records;
    assert s.removed + [] + [] == s.removed;
    assert s'.written == s.removed + r + s.active.lost + [] + [];
  }

  /** Actions that write no record, move no file and commit nothing. */
  predicate IsQuiet(a: Action) {
    !a.Append? && !a.AppendUnsynced? && !a.AppendPartial? && !a.Rotate? && !a.RemoveBatch? && !a.CommitTxn?
  }

  lemma QuietKeepsLogInv(s: State, a: Action)
    requires LogInv(s) && Enabled(s, a) && IsQuiet(a)
    ensures LogInv(Step(s, a))
  {
    assert Records(Step(s, a).processing) == Records(s.processing);
    assert Unreadable(Step(s, a).processing) == Unreadable(s.processing);
  }

  lemma QuietKeepsReceiptInv(s: State, a: Action)
    requires ReceiptInv(s) && WorkerInv(s) && Enabled(s, a) && IsQuiet(a)
    ensures ReceiptInv(Step(s, a))
  {
  }

  lemma QuietKeepsWorkerInv(s: State, a: Action)
    requires LogInv(s) && WorkerInv(s) && Enabled(s, a) && IsQuiet(a)
    ensures WorkerInv(Step(s, a))
  {
    assert Records(Step(s, a).processing) == Records(s.processing);
  }

  lemma StepKeepsInv(s: State, a: Action)
    requires Inv(s) && Enabled(s, a)
    ensures Inv(Step(s, a))
  {
    if IsQuiet(a) {
      QuietKeepsLogInv(s, a);
      QuietKeepsReceiptInv(s, a);
      QuietKeepsWorkerInv(s, a);
      return;
    }
    if a.Append? || a.AppendUnsynced? || a.AppendPartial? {
      AppendKeepsInv(s, a);
    } else if a.Rotate? {
      RotateKeepsInv(s);
    } else if a.RemoveBatch? {
      RemoveKeepsInv(s);
    } else if a.CommitTxn? {
      CommitKeepsInv(s);
    }
  }

  /** The log grows only by whole records, and what is applied only by commits. */
  lemma LogMovesOnlyBy(s: State, a: Action)
    requires Enabled(s, a)
    ensures !a.Append? && !a.AppendUnsynced? ==> Step(s, a).written == s.written
    ensures !a.CommitTxn? ==> Step(s, a).applied == s.applied
  {
  }

  lemma {:induction false} RunsKeepInv(s: State, acts: seq<Action>, s': State)
    requires Inv(s) && Reaches(s, acts, s')
    ensures Inv(s')
    decreases |acts|
  {
    if acts != [] {
      StepKeepsInv(s, acts[0]);
      RunsKeepInv(Step(s, acts[0]), acts[1..], s');
    }
  }

  /** In every run from the initial state the applied events are a prefix of the
      records written, with no event twice; deleted batches are entirely
      applied; and once no readable or unreadable record is left in the files,
      everything written has been applied. */
  lemma {:induction false} AppliedExactlyOnceInOrder(acts: seq<Action>, s: State)
    requires Reaches(INIT, acts, s)
    ensures s.applied <= s.written
    ensures DistinctIds(s.applied)
    ensures s.removed <= s.applied
    ensures s.processing.None? && s.active.records == [] && s.active.lost == [] ==>
              s.applied == s.written
  {
    InitKeepsRingInv();
    RunsKeepInv(INIT, acts, s);
    InvMeansPrefix(s);
  }

  lemma InvMeansPrefix(s: State)
    requires Inv(s)
    ensures s.applied <= s.written && DistinctIds(s.applied) && s.removed <= s.applied
    ensures s.processing.None? && s.active.records == [] && s.active.lost == [] ==> s.applied == s.written
  {
    assert forall i :: 0 <= i < |s.applied| ==> s.applied[i] == s.written[i];
    assert forall i :: 0 <= i < |s.removed| ==> s.removed[i] == s.written[i];
  }

  // ---------------------------------------------------------------------
  // The ring against the journal
  // ---------------------------------------------------------------------

  /** `xs` is a subsequence of `ys`, ring numbers aside. */
  ghost predicate Subsequence(xs: seq<Event>, ys: seq<Event>) {
    if xs == [] then true
    else if ys == [] then false
    else if Durable(xs[0]) == ys[0] then Subsequence(xs[1..], ys[1..])
    else Subsequence(xs, ys[1..])
  }

  lemma {:induction false} SubsequenceExtends(xs: seq<Event>, ys: seq<Event>, x: Event)
    requires Subsequence(xs, ys)
    ensures Subsequence(xs, ys + [Durable(x)])
    ensures Subsequence(xs + [x], ys + [Durable(x)])
  {
    if ys == [] {
      assert xs + [x] == [x] && ys + [Durable(x)] == [Durable(x)];
      assert [x][1..] == [];
    } else {
      assert (ys + [Durable(x)])[1..] == ys[1..] + [Durable(x)];
      if xs == [] {
        SubsequenceExtends([], ys[1..], x);
        SingletonInSnoc(ys, x);
      } else if Durable(xs[0]) == ys[0] {
        SubsequenceExtends(xs[1..], ys[1..], x);
        assert (xs + [x])[1..] == xs[1..] + [x];
      } else {
        SubsequenceExtends(xs, ys[1..], x);
      }
    }
  }

  lemma {:induction false} SingletonInSnoc(ys: seq<Event>, x: Event)
    ensures Subsequence([x], ys + [Durable(x)])
  {
    assert [x][1..] == [];
    if ys != [] {
      SingletonInSnoc(ys[1..], x);
      assert (ys + [Durable(x)])[1..] == ys[1..] + [Durable(x)];
    }
  }

  lemma {:induction false} SubsequenceHead(xs: seq<Event>, ys: seq<Event>)
    requires Subsequence(xs, ys) && xs != []
    ensures exists k :: 0 <= k < |ys| && ys[k] == Durable(xs[0])
  {
    if Durable(xs[0]) != ys[0] {
      SubsequenceHead(xs, ys[1..]);
      var k :| 0 <= k < |ys[1..]| && ys[1..][k] == Durable(xs[0]);
      assert ys[k + 1] == Durable(xs[0]);
    } else {
      assert ys[0] == Durable(xs[0]);
    }
  }

  /** Events journaled and not yet applied. */
  function Unapplied(s: State): seq<Event>
    requires |s.applied| <= |s.written|
  {
    s.written[|s.applied|..]
  }

  predicate TokenIsTail(q: Queue, token: ClaimToken) {
    q.held != [] && token == ClaimToken(q.tail, q.held[0].seqNo)
  }

  /** The ring's contents, oldest first, are a subsequence of the unapplied
      events; between a commit and its callback the ring may still hold the one
      event just applied, at its tail. A claim names the pending event. */
  ghost predicate RingInv(s: State) {
    && WellFormed(s.ring)
    && |s.applied| <= |s.written|
    && match s.worker
       case InTxn(_, Some(token)) =>
         && Subsequence(s.ring.held, Unapplied(s)) && TokenIsTail(s.ring, token)
         && HasPending(s) && s.ring.held[0].id == PendingEvent(s).id
       case InTxn(_, None) =>
         && Subsequence(s.ring.held, Unapplied(s))
         && HasPending(s) && (s.ring.held != [] ==> s.ring.held[0].id != PendingEvent(s).id)
       case Committed(_, Some(token)) =>
         TokenIsTail(s.ring, token) && Subsequence(s.ring.held[1..], Unapplied(s))
       case _ => Subsequence(s.ring.held, Unapplied(s))
  }

  /** The worker has claimed the ring's copy of its event and not yet
      acknowledged it. */
  predicate ClaimOpen(s: State) {
    (s.worker.InTxn? || s.worker.Committed?) && s.worker.token.Some?
  }

  /** The administrator does not reset the ring under an open claim. */
  predicate CalmStep(s: State, a: Action) {
    a.RecoverRing? ==> !ClaimOpen(s)
  }

  /** The part of the ring that must follow the unapplied events. */
  function Following(s: State): seq<Event> {
    if s.worker.Committed? && s.worker.token.Some? && s.ring.held != []
    then s.ring.held[1..] else s.ring.held
  }

  lemma FollowingGrows(s: State, e: Event, q: Queue, x: Event)
    requires RingInv(s) && e.seqNo == 0 && Durable(x) == e
    requires q.held == s.ring.held || q.held == s.ring.held + [x]
    ensures var s' := s.(written := s.written + [e], ring := q);
            Subsequence(Following(s'), Unapplied(s'))
  {
    var s' := s.(written := s.written + [e], ring := q);
    assert Unapplied(s') == Unapplied(s) + [Durable(x)];
    SubsequenceExtends(Following(s), Unapplied(s), x);
    assert Following(s') == Following(s) || Following(s') == Following(s) + [x];
  }

  lemma RingUnderWrite(s: State, e: Event, q: Queue, f: File)
    requires LogInv(s) && RingInv(s) && FreshId(s, e) && e.seqNo == 0
    requires WellFormed(q) && q.tail == s.ring.tail
    requires q.held == s.ring.held || q.held == s.ring.held + [e.(seqNo := s.ring.nextSeq)]
    ensures RingInv(s.(written := s.written + [e], active := f, ring := q))
  {
    var s' := s.(written := s.written + [e], ring := q);
    FollowingGrows(s, e, q, e.(seqNo := s.ring.nextSeq));
    if HasPending(s) {
      PendingPlace(s);
    }
    assert RingInv(s');
  }

  lemma RingUnderAppend(s: State, a: Action)
    requires Inv(s) && RingInv(s) && Enabled(s, a)
    requires a.Append? || a.AppendUnsynced? || a.AppendPartial?
    ensures RingInv(Step(s, a))
  {
    var s' := Step(s, a);
    match a
    case Append(e) =>
      EnqueueKeepsWellFormed(s.ring, e);
      RingUnderWrite(s, e, Enqueue(s.ring, e).0, FileAppend(s.active, e));
    case AppendUnsynced(e) =>
      RingUnderWrite(s, e, AppendFailed(s.ring, e.timestamp).0, FileAppend(s.active, e));
    case AppendPartial(bytes, now) =>
  }

  /** A durable append also reaches the ring, as its newest event, exactly when
      the ring has room; a failed one never does. */
  lemma AppendReachesRing(s: State, a: Action)
    requires RingInv(s) && Enabled(s, a) && (a.Append? || a.AppendUnsynced? || a.AppendPartial?)
    ensures Step(s, a).ring.held ==
              s.ring.held + if a.Append? && RingHasRoom(s.ring) then [a.event.(seqNo := s.ring.nextSeq)] else []
  {
    if a.Append? {
      EnqueueAcceptsIff(s.ring, a.event);
    }
  }

  lemma RingUnderCommit(s: State)
    requires Inv(s) && RingInv(s) && Enabled(s, CommitTxn)
    ensures RingInv(Step(s, CommitTxn))
  {
    ReceiptDecides(s);
    var s', e, held := Step(s, CommitTxn), PendingEvent(s), s.ring.held;
    PendingPlace(s);
    if held != [] {
      SubsequenceHead(held, Unapplied(s));
      var k :| 0 <= k < |Unapplied(s)| && Unapplied(s)[k] == Durable(held[0]);
      assert s.written[|s.applied| + k].id == held[0].id;
      if e.id !in s.receipts {
        assert Unapplied(s)[0] == e && Unapplied(s') == Unapplied(s)[1..];
      }
    }
  }

  lemma RingUnderCallback(s: State)
    requires RingInv(s) && Enabled(s, CommitCallback)
    ensures RingInv(Step(s, CommitCallback))
  {
    if s.worker.token.Some? {
      AckKeepsWellFormed(s.ring, s.worker.token.value);
    }
  }

  lemma RingUnderQuiet(s: State, a: Action)
    requires RingInv(s) && Enabled(s, a) && CalmStep(s, a) && IsQuiet(a) && !a.BeginTxn? && !a.CommitCallback?
    ensures RingInv(Step(s, a))
  {
  }

  lemma RingUnderBegin(s: State)
    requires RingInv(s) && Enabled(s, BeginTxn)
    ensures RingInv(Step(s, BeginTxn))
  {
  }

  lemma StepKeepsRingInv(s: State, a: Action)
    requires Inv(s) && RingInv(s) && Enabled(s, a) && CalmStep(s, a)
    ensures RingInv(Step(s, a))
  {
    if a.BeginTxn? {
      RingUnderBegin(s);
      return;
    }
    if IsQuiet(a) && !a.CommitCallback? {
      RingUnderQuiet(s, a);
      return;
    }
    if a.Append? || a.AppendUnsynced? || a.AppendPartial? {
      RingUnderAppend(s, a);
    } else if a.CommitTxn? {
      RingUnderCommit(s);
    } else if a.CommitCallback? {
      RingUnderCallback(s);
    }
  }

  ghost predicate CalmRun(s: State, acts: seq<Action>, s': State)
    decreases |acts|
  {
    if acts == [] then s == s'
    else && Enabled(s, acts[0]) && CalmStep(s, acts[0])
         && CalmRun(Step(s, acts[0]), acts[1..], s')
  }

  lemma {:induction false} CalmRunsKeepRingInv(s: State, acts: seq<Action>, s': State)
    requires Inv(s) && RingInv(s) && CalmRun(s, acts, s')
    ensures Inv(s') && RingInv(s')
    decreases |acts|
  {
    if acts != [] {
      StepKeepsInv(s, acts[0]);
      StepKeepsRingInv(s, acts[0]);
      CalmRunsKeepRingInv(Step(s, acts[0]), acts[1..], s');
    }
  }

  /** What the ring invariant promises: outside the commit window the ring holds
      a subsequence of the unapplied events; the commit callback's
      acknowledgement validates; once everything written is applied the ring is
      empty and not Overflowed; and the counters add up. */
  ghost predicate RingFollows(s: State) {
    && s.applied <= s.written
    && (!s.worker.Committed? ==> Subsequence(s.ring.held, Unapplied(s)))
    && (s.worker.Committed? && s.worker.token.Some? ==>
          AckClaim(s.ring, s.worker.token.value).1 == Acknowledged)
    && (!s.worker.Committed? && s.applied == s.written ==>
          s.ring.held == [] && s.ring.state != Overflowed)
    && s.ring.accepted == s.ring.acknowledged + |s.ring.held|
    && (s.ring.journaled < U64_MAX ==> s.ring.journaled == s.ring.accepted + s.ring.durableOnly)
  }

  lemma RingInvFollows(s: State)
    requires Inv(s) && RingInv(s)
    ensures RingFollows(s)
  {
    if !s.worker.Committed? && s.applied == s.written {
      DrainedRingIsEmpty(s);
    }
  }

  /** `RingFollows` holds in every run that does not reset the ring under an
      open claim. */
  lemma {:induction false} RingFollowsJournal(acts: seq<Action>, s: State)
    requires CalmRun(INIT, acts, s)
    ensures RingFollows(s)
  {
    InitKeepsRingInv();
    CalmRunsKeepRingInv(INIT, acts, s);
    RingInvFollows(s);
  }

  /** Such a reset always breaks the claim: the ring invariant survives a step
      exactly when the step is calm. */
  lemma RingInvSurvivesIff(s: State, a: Action)
    requires Inv(s) && RingInv(s) && Enabled(s, a)
    ensures RingInv(Step(s, a)) <==> CalmStep(s, a)
  {
    if CalmStep(s, a) {
      StepKeepsRingInv(s, a);
    }
  }

  /** While the worker is at work the ring goes Corrupt, and so becomes eligible
      for a reset, only by running out of sequence numbers. */
  ghost predicate CorruptExplained(s: State) {
    s.ring.state == Corrupt ==>
      s.worker.Suspended? || s.worker.Stopped? || s.ring.nextSeq == U64_MAX
  }

  lemma StepKeepsCorruptExplained(s: State, a: Action)
    requires RingInv(s) && CorruptExplained(s) && Enabled(s, a) && CalmStep(s, a)
    ensures CorruptExplained(Step(s, a))
  {
  }

  /** A run in which every step starts with a sequence number to spare. */
  ghost predicate NumberedRun(s: State, acts: seq<Action>, s': State)
    decreases |acts|
  {
    if acts == [] then s == s'
    else && s.ring.nextSeq < U64_MAX && Enabled(s, acts[0])
         && NumberedRun(Step(s, acts[0]), acts[1..], s')
  }

  lemma {:induction false} NumberedRunsAreCalm(s: State, acts: seq<Action>, s': State)
    requires Inv(s) && RingInv(s) && CorruptExplained(s) && NumberedRun(s, acts, s')
    ensures CalmRun(s, acts, s')
    decreases |acts|
  {
    if acts != [] {
      StepKeepsInv(s, acts[0]);
      StepKeepsRingInv(s, acts[0]);
      StepKeepsCorruptExplained(s, acts[0]);
      NumberedRunsAreCalm(Step(s, acts[0]), acts[1..], s');
    }
  }

  /** `RingFollows` needs nothing of the administrator: it holds in every run
      until 64-bit sequence numbers are exhausted. */
  lemma {:induction false} RingFollowsUntilExhaustion(acts: seq<Action>, s: State)
    requires NumberedRun(INIT, acts, s)
    ensures RingFollows(s)
  {
    InitKeepsRingInv();
    NumberedRunsAreCalm(INIT, acts, s);
    RingFollowsJournal(acts, s);
  }

  lemma DrainedRingIsEmpty(s: State)
    requires RingInv(s) && !s.worker.Committed? && s.applied == s.written
    ensures s.ring.held == [] && s.ring.state != Overflowed
  {
  }

  lemma InitKeepsRingInv()
    ensures Inv(INIT) && RingInv(INIT)
  {
    assert Unapplied(INIT) == [];
  }
}
