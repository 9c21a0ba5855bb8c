# Verified model of the durable authentication-event pipeline

`password_profile` is a PostgreSQL extension that counts failed logins, locks
accounts, expires passwords and grants a limited number of grace logins. Its
authentication hook may not touch tables, so it decides from two fixed-size
shared-memory caches (lockouts and password expiry) and records what happened as
an event. Events go to a durable journal first and then to a bounded
shared-memory ring. One background worker replays the journal, commits each
event's table effect together with a receipt, lets the commit callback update
the caches and acknowledge the ring copy, and deletes the batch and the receipts
afterwards. Backends that change passwords or clear lockouts stage cache
decisions per savepoint and apply them in the same callback.

The project models that machinery in Dafny and proves what it is for:

* **exactly once, in order.** In every interleaving of appends (complete,
  unsynced or torn), rotations, commits, rollbacks, returns to hydration, ring
  resets, worker stops and crashes, the events applied are a prefix of the
  records written (`EventProtocol`). The files of that protocol are what the bytes
  on disk say (`Journal`, `JournalFiles`, `JournalBytes`);
* **what a restart promises.** Exactly which reachable states of the whole system
  can be crashed and continued, with no backend transaction, until everything
  written is applied (`StuckJournal`, `OwnRuns`, `SystemDrain`);
* **the ring is a faithful accelerator.** It refines a bounded FIFO queue, holds
  only journaled and unapplied events, and its acknowledgements cannot go astray
  (`EventRing`, `EventProtocol`);
* **staging is latest-wins under savepoints.** The 16-slot array refines a stack
  of per-savepoint logs, and the callback shows each user's last surviving
  decision (`PendingOps`, `Transactions`, `CommitCallback`);
* **the caches answer for the tables.** Over all runs of the whole system whose
  steps are safe, the live lockouts of a Ready cache are those of
  `login_attempts`, and grace logins are conserved between cache, journal and
  table; the conditions are proved exact, step by step (`LockCache`,
  `ExpiryCache`, `LoginTables`, `LockCoherence`, `GraceLedger`, `AuthSystem`,
  `SystemInvariant`, `SystemTheorems`, `SystemOrder`). A restart makes both caches
  Ready whenever the tables fit, and heals whatever unsafe steps left behind
  (`SystemHydration`);
* **what an applied event and a login amount to.** Over every run the row of a user
  in `login_attempts` is the current streak of failures recorded for that user, and
  the user is locked exactly when the streak is threshold-long (`LoginTables`,
  `SystemEffects`); and in every clean run a login is told that its password is
  expired exactly from the end of its lifetime on, and that grace is left exactly
  while fewer grace logins are recorded than were granted (`SystemExpiry`);
* **health is never announced too early** (`RetryDegrade`, `SystemStates`, `WorkerHealth`,
  `SystemHealth`).

## How it is built

Code that updates state in place is a class whose methods are proved against a
function on values: `AuthEventRing` against `Offer`, `Claim` and `Ack`;
`PendingState` against `Stage`, `Abort` and `Release`; `SharedLockCache` and
`SharedExpiryCache` against functions on their slots; the journal classes against
`Record`, `Block` and `ReadAll`; `LoginAttempts` and `PasswordExpiry` against row
functions. The transition systems use those same functions, so what is proved
about runs is about what the methods do.

`EventProtocol` is the pipeline alone: a state with the two files, the receipts,
the ring, the worker's position and three history logs, and 23 actions.
`AuthSystem` composes it with both tables and both caches: logins, backend
transactions with arbitrary nesting of savepoints, worker commits, callbacks that
run some time after their commit, hydration attempts, retries with demotion and
restoration, clock advance and crashes. A table is a map; a transaction is one
atomic step that holds its per-user lock until its callback has run.

A system action is enabled whenever the source would perform it. What a theorem
needs beyond that is a condition on the steps of the run, and each condition is
exact for the property it serves. From a coherent state with a Ready cache, cache
and table agree on lockouts after a step if and only if the step is `LockSafe`
(`CoherenceSurvivesIff`). From a balanced state every grace account balances after
a step if and only if it is `GraceSafe` (`ConservationSurvivesIff`). From exact
accounts, where what the cache offers and what the journal holds is what the table
has, a step that ends with a trusted cache keeps them exact if and only if it is
`CleanStep` (`AccountsStayExactIff`). `SystemOrder` names kinds of runs that meet
these conditions throughout.

A balanced account is stated with an explicit entry, the *slack* of a user: pending
grace events the cache has not paid for. Exact accounts are those without slack.
The allowance of a row is what was granted under its generation, so that a row
written again with an old generation counts what the earlier one had spent.

Where the code does not meet a property the project keeps the code, shows an
input or a run that breaks it, and gives the condition under which it holds:

* The documented promise that a restart discards no accepted event holds in a
  reachable state if and only if the journal is not stuck and every row can pay for
  the grace events pending against it (`RestartAppliesEverything`). It fails in two
  ways. An append that fails half way leaves its bytes in the file, and the next
  one lands behind them: it is reported durable and no continuation ever applies it
  or anything after it (`TornAppendStrandsTheNext`). And a grace event its row
  cannot pay for is rolled back on every retry, with all that is behind it in the
  journal (`UnpaidForGood`, and a run in `OverAdmissionBlocksJournal`).
* Expiry hydration copies the table's grace count although grace events may still
  be queued, so a second hydration attempt hands the same grace out again
  (`RetriedHydrationOverAdmits`). An append whose sync failed likewise leaves an
  event the cache did not pay for. `CleanStep` excludes both.
* A password row that is deleted and written again takes its generation from the
  clock alone. A grace event queued against an old password spends the new
  allowance exactly when the clock reads its generation again
  (`RecreatedRowIsSpentIff`, and a run in `OldEventSpendsNewAllowance`). `CleanStep`
  asks that the callback of such a row finds no event of its generation pending.
  While rows are kept none can be, whatever the clock does (`KeptStepIsClean`).
* The first failure is inserted without a lockout, so the threshold rule holds if
  and only if the threshold is at least two (`ThresholdRule`). A failure recorded
  after the threshold was raised lifts an active lockout
  (`FailureKeepsLockoutIff`).
* Staging replaces the whole pair of a user, so a transaction that records a
  failure and then changes the password of the same user drops the lock half
  (`LockStagedIff`, `MixedTransactionDropsLock`), and one that changes the
  password and then performs a lock operation drops the expiry half
  (`ExpiryStagedIff`, `MixedTransactionDropsExpiry`).
* A lock decision that has already run out when its callback applies it leaves a
  live cached lockout in place (`ApplyAgreesIff`). A failure recorded by a
  transaction that began before the previously recorded one brings this about
  (`LateFailureOutlivesRow`); failures recorded in order under one lockout length
  never do (`OrderedRunsStayCoherent`).
* `remaining_seconds_ceil` says its subtraction cannot overflow; it can when the
  clock reads before 2000-01-01, and only then (`RemainingNeverOverflows`).
* Two failures stamped with the same microsecond defeat the compare-and-exchange
  that clears the failure marker (`EqualStampsAreErased`,
  `LaterFailureBlocksIff`).
* `decode` ignores two padding bytes that the checksum covers, so a record is
  determined by its event up to those bytes (`DecodedIsRecord`).
* Resetting the ring restarts its sequence numbers at 1, so a reset breaks the
  ring invariant if and only if a claim is open (`RingInvSurvivesIff`). While the
  worker is at work the ring becomes eligible for a reset only by running out of
  64-bit sequence numbers, so the ring theorem holds in every run until then
  (`RingFollowsUntilExhaustion`). Exactly-once application needs neither.

Where code and documentation disagree the model follows the code:

* an exhausted sequence number returns no warning (src/auth_event.rs:438-445),
  although a unit test expects one (src/auth_event.rs:1251-1264);
* `GraceOutcome::Unavailable` is documented as a rejection
  (src/expiry_cache.rs:140-143) but the hook admits the login with expiry
  enforcement paused (src/lib.rs:824-830), so the grace theorems count *recorded*
  grace logins;
* `persist_grace_consumption` uses -1 for a stale event, so a row that holds -1
  is taken for one (src/lib.rs:1725-1738).

## Model

| member | source | states |
|---|---|---|
| `EventProtocol.AppliedExactlyOnceInOrder` | src/worker.rs:938-1136 | in every run from the initial state the applied events are a prefix of the records written, none twice; deleted batches are entirely applied; when both files hold nothing everything written has been applied |
| `EventProtocol.StepKeepsInv` | src/worker.rs:811-1136 | each of the 23 actions, crash included, keeps the relation between written log, deleted batches, files, receipts, applied events and the worker's position |
| `EventProtocol.RunsKeepInv` | src/worker.rs:811-1136 | that invariant holds after every run |
| `EventProtocol.ReceiptDecides` | src/worker.rs:21-30 | the receipt of the pending record is present if and only if its event has been applied; if it is absent the event is the next one due in the written log |
| `EventProtocol.CommitMovesLog` | src/worker.rs:643-702 | a commit applies exactly the next event of the log, or nothing when the receipt exists |
| `EventProtocol.CommitKeepsInv` | src/worker.rs:643-702 | committing effect and receipt together keeps the invariant |
| `EventProtocol.RemoveKeepsInv` | src/worker.rs:997-1013 | a batch is deleted only when all of it is applied: the deleted records are then exactly the applied events |
| `EventProtocol.RotateKeepsInv` | src/auth_journal.rs:182-199 | rotation makes the active records the next batch and loses none |
| `EventProtocol.AppendKeepsInv` | src/auth_journal.rs:158-177 | complete, unsynced and partial appends keep the invariant |
| `EventProtocol.AppendReachesRing` | src/auth_event.rs:674-687 | a durable append also reaches the ring, as its newest event, exactly when the ring has room; a failed one never does |
| `EventProtocol.LogMovesOnlyBy` | src/worker.rs:643-702 | only a whole-record append extends the written log and only a commit extends the applied one |
| `EventProtocol.StepKeepsRingInv` | src/auth_event.rs:627-689 | every step except a ring reset under an open claim keeps the ring a subsequence of the unapplied events, with an open claim naming the pending event |
| `EventProtocol.CalmRunsKeepRingInv` | src/worker.rs:1048-1088 | both invariants after every run without such a reset |
| `EventProtocol.RingInvFollows` | src/pending_cache_op.rs:482-502 | the ring invariant implies what is promised of the ring, the validating acknowledgement included |
| `EventProtocol.RingFollowsJournal` | src/auth_event.rs:747-764 | in every such run the ring holds a subsequence of journaled and unapplied events, the callback's acknowledgement validates, a drained journal means an empty and not Overflowed ring, and the counters add up |
| `EventProtocol.RingInvSurvivesIff` | src/auth_event.rs:769-785 | a step keeps the ring invariant if and only if it does not reset the ring under an open claim |
| `EventProtocol.StepKeepsCorruptExplained` | src/auth_event.rs:438-445 | under a working worker the ring is Corrupt only when its sequence numbers are exhausted |
| `EventProtocol.NumberedRunsAreCalm` | src/auth_event.rs:769-785 | hence no run with sequence numbers to spare resets the ring under an open claim |
| `EventProtocol.RingFollowsUntilExhaustion` | src/auth_event.rs:747-764 | what is promised of the ring holds in every run until sequence numbers are exhausted, whatever the administrator does |
| `StuckJournal.BlockedForGood` | src/auth_journal.rs:247-256 | once an undecodable block stands behind the first `n` records no continuation applies more than `n` events, and recovery is refused for good |
| `StuckJournal.StuckIsBlocked` | src/auth_journal.rs:161-177 | a stuck journal is blocked before its end |
| `StuckJournal.TornAppendStrandsTheNext` | src/auth_journal.rs:161-177 | from any reachable state with a clean active file, the append after a torn one is reported durable and no continuation applies its event |
| `StuckJournal.CorruptUntilRecovered` | src/auth_event.rs:769-786 | a Corrupt ring stays so until a restart or a recovery that is not refused; a refused one changes neither ring nor worker |
| `StuckJournal.UndecodableBlockHalts` | src/worker.rs:1031-1038 | a worker that reads an undecodable block marks the ring Corrupt and suspends itself, as one that finds it Corrupt does, and no continuation without a restart or a recovery applies, receipts or deletes anything more |
| `StuckJournal.RecoveryResumes` | src/worker.rs:1260-1300 | a suspended worker can be recovered without a restart if and only if both files verify, and then starts anew with an empty ring, every record and receipt still there |
| `StuckJournal.CleanupFailureLosesNothing` | src/worker.rs:997-1029 | a failure to delete a batch or its receipts loses nothing and leaves the worker where it opens the batch again or rotates the next |
| `SystemDrain.RestartAppliesEverything` | README.md:297-299 | in every reachable state, whatever the policies and exemptions, a crash can be continued without a backend transaction until everything written is applied if and only if the journal is not stuck and every row can pay for the grace events pending against it |
| `SystemDrain.UnpaidForGood` | src/lib.rs:1749-1754 | while a row cannot pay, no continuation without a backend transaction, with whatever logins, hydrations, crashes and retries, applies everything written |
| `SystemDrain.StuckForGood` | src/auth_journal.rs:247-256 | nor does any continuation while the journal is stuck |
| `SystemDrain.OwnRunsKeepFunds` | src/lib.rs:1739-1748 | along such continuations the grace of a row plus what was taken from it is constant |
| `SystemDrain.CanCommit` | src/worker.rs:643-702 | when every row can pay and the failure count has room, the event in hand can be committed |
| `SystemDrain.WaitForRoom` | src/lib.rs:2048-2053 | and room comes with time: a count that is full carries a lockout, whose end resets it |
| `SystemDrain.ReplayOne` | src/worker.rs:1048-1112 | so the worker can read, commit and acknowledge the next record |
| `SystemDrain.ReplayRest` | src/worker.rs:986-1112 | and replay to the end of the batch |
| `SystemDrain.ReplayBatch` | src/worker.rs:938-1112 | up to its first undecodable block |
| `SystemDrain.FinishBatch` | src/worker.rs:938-1030 | and, if there is none, delete it with its receipts, leaving log and active file alone |
| `SystemDrain.FinishActive` | src/worker.rs:938-1030 | and then rotate and replay the active file, after which everything written is applied |
| `SystemDrain.RunsKeepSound` | src/lib.rs:2048-2067 | in every reachable state a full failure count carries a lockout, no grace count is negative, and every journaled name is one |
| `SystemDrain.CleanRunsCanDrain` | README.md:297-299 | after every clean run the promise holds if and only if the journal is not stuck |
| `SystemDrain.SettledRunsCanDrain` | README.md:297-299 | and so it does after every run that keeps its password rows, loses no expiry half, hydrates over no pending grace event and meets no failed sync on a grace login |
| `EventRing.AuthEventRing.constructor` | src/auth_event.rs:313-330 | a new ring is the empty queue numbering from 1 |
| `EventRing.AuthEventRing.Depth` | src/auth_event.rs:346-351 | at most the usable capacity, and zero for unusable indices |
| `EventRing.AuthEventRing.DegradeTo` | src/auth_event.rs:361-368 | the state never heals and Corrupt outranks Overflowed |
| `EventRing.AuthEventRing.ShouldWarnNow` | src/auth_event.rs:379-389 | a warning is due on the first degradation, if none was given yet, or after sixty seconds, and is then stamped |
| `EventRing.AuthEventRing.TryEnqueue` | src/auth_event.rs:391-466 | unusable indices make the ring Corrupt and store nothing; otherwise the array performs the FIFO transition `Offer`, which accepts exactly when `EnqueueAcceptsIff` says |
| `EventRing.AuthEventRing.ClaimTail` | src/auth_event.rs:471-488 | returns the oldest event and its token and changes nothing; unusable indices make it Corrupt |
| `EventRing.AuthEventRing.AckTail` | src/auth_event.rs:495-523 | a matching token removes the oldest event, any other changes nothing |
| `EventRing.AuthEventRing.AcknowledgeClaim` | src/auth_event.rs:792-807 | the same, and a token that does not validate makes the ring Corrupt |
| `EventRing.AuthEventRing.RecordAppend` | src/auth_event.rs:656-687 | durable exactly when the append succeeded; a failed append offers nothing, an unavailable ring becomes durable-only |
| `EventRing.PushExtendsSegment` | src/auth_event.rs:417-464 | writing at head and advancing appends one event to the wrapped segment, and is impossible exactly at capacity |
| `EventRing.PopShrinksSegment` | src/auth_event.rs:495-523 | advancing tail drops exactly the oldest event |
| `EventRing.EnqueueKeepsWellFormed` | src/auth_event.rs:391-466 | enqueueing changes no held event, keeps consecutive numbering and both accounting identities, and never leaves Corrupt |
| `EventRing.EnqueueAcceptsIff` | src/auth_event.rs:417-464 | an event is accepted, as the newest, if and only if the ring is not Corrupt, holds fewer than `RING_SLOTS - 1` and has a number to give; a working ring becomes Overflowed exactly when it is full |
| `EventRing.FreeSlotsHoldAll` | src/auth_event.rs:417-464 | as many events as there are free slots are all held, in order, and the state does not change |
| `EventRing.FullRingRefuses` | src/auth_event.rs:417-430 | and the next one is left to the journal and makes the ring Overflowed |
| `EventRing.AckKeepsWellFormed` | src/auth_event.rs:495-523 | acknowledging keeps the same |
| `EventRing.AckRemovesIff` | src/auth_event.rs:495-523 | an acknowledgement removes the oldest event if and only if the token names it by slot and number; emptying the ring ends an overflow; any other token makes it Corrupt |
| `EventRing.ApplyMovesHeld` | src/auth_event.rs:391-523 | held plus accepted equals removed plus held afterwards, for each operation |
| `EventRing.RunsAreFifo` | src/auth_event.rs:391-523 | over every run between resets: held plus what there was room for is, in order, what was named by its token plus what is still held; numbers are issued consecutively; Corrupt is not left |
| `EventRing.TokenNamesOneEvent` | src/auth_event.rs:471-523 | a token that still validates after any run names the event it was claimed for, with nothing acknowledged in between, across any number of wraparounds |
| `EventRing.TokenIsSpentByAck` | src/auth_event.rs:495-523 | a token that acknowledged its event never validates again |
| `EventRing.DrainEmptiesInDepthSteps` | src/auth_event.rs:471-523 | exactly `depth` claim-and-acknowledge steps empty the ring, in order, and a ring that is not Corrupt ends Healthy |
| `Journal.LeRoundTrip` | src/auth_journal.rs:83-95 | little-endian bytes decode to the number they encode |
| `Journal.LeBytesOfValue` | src/auth_journal.rs:97-145 | and every byte string is the encoding of its value |
| `Journal.I64RoundTrip` | src/auth_journal.rs:88-89 | timestamps and generations survive for the whole signed 64-bit range |
| `Journal.NameEnd` | src/auth_event.rs:864-872 | the first NUL byte, or the length |
| `Journal.EncodeUsername` | src/lib.rs:494-500 | at most 63 bytes copied into a zeroed 64-byte buffer |
| `Journal.NameRoundTrip` | src/auth_event.rs:864-872 | a name is recovered if and only if it is non-empty, NUL-free, valid UTF-8 and at most 63 bytes |
| `Journal.PaddedNameInjective` | src/lib.rs:494-500 | distinct storable names never share a key |
| `Journal.Encode` | src/auth_journal.rs:83-95 | the buffer filled in place is the record of the event, checksum included |
| `Journal.FillBody` | src/auth_journal.rs:83-95 | each field lands at its offset and the padding stays zero |
| `Journal.RecordRoundTrip` | src/auth_journal.rs:83-145 | decoding an encoded event succeeds if and only if the event is valid, and gives it back with its ring number zeroed |
| `Journal.RecordInjective` | src/auth_journal.rs:83-95 | two events have the same record if and only if they agree up to the ring number |
| `Journal.DecodedIsRecord` | src/auth_journal.rs:97-145 | whatever decodes is valid, and is the record of its event if and only if the two padding bytes are zero |
| `JournalFiles.TornTailIsDiscarded` | src/auth_journal.rs:207-234 | for every list of valid events and every strict prefix of one more record: opening keeps the complete records, and reading to the end returns exactly the list |
| `JournalFiles.BlockOfEncoded` | src/auth_journal.rs:225-234 | block `i` of the encoded list is the record of event `i`, whatever follows |
| `JournalFiles.ReadFromEncoded` | src/auth_journal.rs:225-234 | records read back in order, and the read ends with an error exactly when an undecodable block follows |
| `JournalFiles.AppendRepresents` | src/auth_journal.rs:158-177 | an append to bytes that represent a file gives bytes that represent the longer file, torn or not |
| `JournalFiles.AppendPartRepresents` | src/auth_journal.rs:158-177 | the same for a partial append |
| `JournalFiles.OpenRepresents` | src/auth_journal.rs:208-223 | truncation on open does what the protocol's file view says |
| `JournalFiles.ReadRepresents` | src/auth_journal.rs:225-234 | reading represented bytes returns the file's records, and an error exactly when a whole undecodable block follows |
| `JournalFiles.ReadToEnd` | src/auth_journal.rs:247-256 | the read loop truncates the torn tail and returns every record up to the first error |
| `JournalBytes.StepKeepsBacks` | src/auth_journal.rs:158-256 | every pipeline step does to the bytes of both files what it does to their records |
| `JournalBytes.BytesFollowEveryRun` | src/auth_journal.rs:158-256 | along every run whose tears are detected, reading a file to its end returns exactly the records the protocol has there, and an error exactly when an undecodable block follows |
| `JournalFiles.JournalReader.Open` | src/auth_journal.rs:208-223 | opening truncates to whole records and starts at the first |
| `JournalFiles.JournalReader.NextEvent` | src/auth_journal.rs:225-234 | the next block decoded, its error, or the end of the batch |
| `JournalFiles.JournalDir.Append` | src/auth_journal.rs:158-177 | however much of the record arrives is appended; durable exactly when all of it arrived and was synced |
| `JournalFiles.JournalDir.Rotate` | src/auth_journal.rs:182-199 | an existing batch is kept; otherwise a non-empty active file becomes the batch |
| `JournalFiles.JournalDir.RemoveProcessing` | src/auth_journal.rs:238-242 | the batch is gone and the active file untouched |
| `PendingOps.LatestMatch` | src/pending_cache_op.rs:185-217 | the last entry of this user and level, if there is one |
| `PendingOps.StageSimulates` | src/pending_cache_op.rs:185-217 | staging keeps the array in step with the stack of per-savepoint logs |
| `PendingOps.AbortSimulates` | src/pending_cache_op.rs:223-242 | so does a savepoint rollback |
| `PendingOps.ReleaseSimulates` | src/pending_cache_op.rs:251-307 | so does a savepoint release, re-parenting and compaction included |
| `PendingOps.StartSimulates` | src/pending_cache_op.rs:554-570 | so does opening a savepoint |
| `PendingOps.PerformSimulates` | src/pending_cache_op.rs:185-307 | every allowed operation keeps the simulation |
| `PendingOps.RunsSimulate` | src/pending_cache_op.rs:185-307 | and so does every well-nested run |
| `PendingOps.ResolvedBelow` | src/pending_cache_op.rs:438-470 | what the entries resolve to for a user is the last pair of the surviving logs, level by level |
| `PendingOps.CommitAppliesLastSurvivor` | src/pending_cache_op.rs:185-307 | for every well-nested run the pair resolved for a user is that of the last stage call no rollback discarded, and at top level each user has one entry |
| `PendingOps.PendingState.constructor` | src/pending_cache_op.rs:136-142 | starts empty |
| `PendingOps.PendingState.IsEmpty` | src/pending_cache_op.rs:160-162 | true exactly when neither an entry nor an acknowledgement is staged |
| `PendingOps.PendingState.Reset` | src/pending_cache_op.rs:165-171 | drops all entries and the acknowledgement |
| `PendingOps.PendingState.StageEntry` | src/pending_cache_op.rs:185-217 | refused exactly when there is no entry to replace and no room, and then nothing changes; otherwise `Stage` |
| `PendingOps.PendingState.TruncateTo` | src/pending_cache_op.rs:238-241 | empties the slots behind the kept ones and no others |
| `PendingOps.PendingState.DropLevel` | src/pending_cache_op.rs:223-242 | the in-place filter keeps exactly the other levels' entries, in order |
| `PendingOps.PendingState.OnSubAbort` | src/pending_cache_op.rs:223-242 | that, and the level's acknowledgement is dropped |
| `PendingOps.PendingState.CompactDuplicates` | src/pending_cache_op.rs:279-307 | the in-place compaction keeps exactly the entries no later one supersedes |
| `PendingOps.PendingState.OnSubCommit` | src/pending_cache_op.rs:251-270 | entries and acknowledgement move to the parent, then compaction |
| `PendingOps.PendingState.StageAck` | src/pending_cache_op.rs:423-427 | records the claim's token at the current level |
| `CommitCallback.ApplyStaged` | src/pending_cache_op.rs:438-470 | one entry applied to both caches |
| `CommitCallback.ApplyAll` | src/pending_cache_op.rs:438-470 | all entries applied in staging order, staging left alone |
| `CommitCallback.OnCommit` | src/pending_cache_op.rs:482-502 | caches first, then the acknowledgement if one is staged, then staging cleared; a ring with unusable indices becomes Corrupt |
| `CommitCallback.OnAbort` | src/pending_cache_op.rs:504-508 | staging cleared, shared memory untouched |
| `CommitCallback.CallbackLeavesOthers` | src/pending_cache_op.rs:438-470 | a user with no staged entry keeps live lockout and expiry row through the whole callback |
| `CommitCallback.CallbackShowsEntry` | src/pending_cache_op.rs:438-470 | afterwards the caches show every staged pair, or say that they overflowed |
| `CommitCallback.CommitShowsLastSurvivor` | src/pending_cache_op.rs:438-470 | end to end: after any well-nested run and its callback each user's caches show the last surviving stage call |
| `LockCache.FindUser` | src/lock_cache.rs:249-280 | first slot of the user, or none at all |
| `LockCache.FindReusable` | src/lock_cache.rs:249-293 | first free or expired slot, or none at all |
| `LockCache.SetChangesOneLockout` | src/lock_cache.rs:249-293 | `set` replaces one user's lockout and no other live one; it is refused, changing nothing, exactly when the user has no slot and every slot holds an unexpired lockout |
| `LockCache.ClearRemovesOneLockout` | src/lock_cache.rs:302-321 | `clear` removes that user's entry and no other |
| `LockCache.HydrationInstallsSnapshot` | src/lock_cache.rs:614-661 | after hydration the cache reports, from then on, exactly the prepared lockouts |
| `LockCache.RemainingIsLeastCover` | src/lock_cache.rs:340-358 | reported exactly while the expiry is in the future, as the least whole number of seconds, at least one, that covers it |
| `LockCache.RemainingNeverOverflows` | src/lock_cache.rs:347-349 | the subtraction fits 64 bits for every expiry, infinity included, if and only if the clock is not negative |
| `LockCache.SharedLockCache.constructor` | src/lock_cache.rs:191-225 | all slots free, NotReady |
| `LockCache.SharedLockCache.Set` | src/lock_cache.rs:249-293 | the two-pass search does `SetSlots`, and records Overflow exactly on refusal |
| `LockCache.SharedLockCache.Clear` | src/lock_cache.rs:302-321 | does `ClearSlots` |
| `LockCache.SharedLockCache.RemainingSeconds` | src/lock_cache.rs:360-399 | answers from the user's live lockout |
| `LockCache.SharedLockCache.Wipe` | src/lock_cache.rs:631-634 | frees every slot |
| `LockCache.SharedLockCache.ApplyHydrated` | src/lock_cache.rs:614-661 | replaces all entries, counts what was installed and publishes the state |
| `LockCache.SharedLockCache.Hydrate` | src/lock_cache.rs:574-599 | Ready if and only if the snapshot left no active lockout out, Overflow otherwise |
| `ExpiryCache.SetEntryChangesOneRow` | src/expiry_cache.rs:393-428 | changes this user's row and no other, evicts nobody, and refuses without a change exactly when a new user finds no free slot |
| `ExpiryCache.ClearEntryRemovesOneRow` | src/expiry_cache.rs:434-452 | removes this user's row and no other |
| `ExpiryCache.TakeGraceChangesOneRow` | src/expiry_cache.rs:295-380 | takes one grace from this user's row and changes no other |
| `ExpiryCache.HydrationInstallsRows` | src/expiry_cache.rs:461-499 | a complete snapshot is installed row for row |
| `ExpiryCache.LookupTells` | src/expiry_cache.rs:233-270 | the answer, branch by branch, in terms of the cached row |
| `ExpiryCache.SharedExpiryCache.constructor` | src/expiry_cache.rs:166-200 | all slots free, NotReady |
| `ExpiryCache.SharedExpiryCache.Find` | src/expiry_cache.rs:249-270 | first slot of the user, or none |
| `ExpiryCache.SharedExpiryCache.Answer` | src/expiry_cache.rs:233-270 | unavailable unless Ready; without a row no expiry; not expired exactly before the date of the row, and then with or without grace according to what is left |
| `ExpiryCache.SharedExpiryCache.TryConsumeGrace` | src/expiry_cache.rs:295-380 | not needed without a row or before its date, no grace when none is left, and otherwise consumed exactly when the event became durable, which carries the cached generation; nothing else changes |
| `ExpiryCache.SharedExpiryCache.SetEntry` | src/expiry_cache.rs:393-428 | does `SetEntrySlots`, and records Overflow exactly on refusal |
| `ExpiryCache.SharedExpiryCache.ClearEntry` | src/expiry_cache.rs:434-452 | does `ClearEntrySlots` |
| `ExpiryCache.SharedExpiryCache.Wipe` | src/expiry_cache.rs:461-499 | frees every slot |
| `ExpiryCache.SharedExpiryCache.ApplyHydrated` | src/expiry_cache.rs:461-499 | replaces all rows, counts them and publishes the state |
| `ExpiryCache.SharedExpiryCache.Hydrate` | src/lock_cache.rs:807-815 | Ready if and only if the snapshot left no row out, Overflow otherwise |
| `LoginTables.DecisionAgreesWithRemaining` | src/lock_cache.rs:148-156 | the staged decision and the seconds shown to a user never disagree at one instant |
| `LoginTables.LoginAttempts.RecordFailure` | src/lib.rs:2048-2082 | reset, upsert and read-back leave the row `FailRow` gives and stage what that row says; when the 32-bit count would overflow the table stays as it was |
| `LoginTables.LoginAttempts.ClearAttempts` | src/lib.rs:2128-2257 | a forced clear takes the row; the automatic one exactly a row with no active lockout, and otherwise stages its exact expiry |
| `LoginTables.RowDescribesStreak` | src/lib.rs:2048-2067 | after every run of logins the row counts the failures of the current streak, dates from the last, and is locked exactly when they are threshold-many |
| `LoginTables.LockedIffStreakIsLong` | src/lib.rs:2048-2067 | a user is locked if and only if the current streak reaches the threshold |
| `LoginTables.StreakIsFailuresSince` | src/lib.rs:2173-2254 | and the streak is the failures since the last clear, the last success that found no active lockout, or the last lockout that ran out |
| `LoginTables.RunsLockAtThreshold` | src/lib.rs:2048-2067 | over every run a lockout is set exactly when the count reached the threshold, and equals last failure plus lockout length |
| `LoginTables.ThresholdRule` | src/lib.rs:2055-2067 | every run keeps that rule if and only if the threshold is at least two |
| `LoginTables.ThresholdLongRunEndsLocked` | src/lib.rs:2048-2067 | a threshold-long run of failures without a clear or expiry ends locked, from any earlier state |
| `LoginTables.ActiveLockoutPersists` | src/lib.rs:2173-2254 | over every time-ordered run without a forced clear an active lockout is neither removed nor shortened |
| `LoginTables.FailureKeepsLockoutIff` | src/lib.rs:2055-2067 | a failure keeps an active lockout if and only if the count still reaches the threshold in force |
| `LoginTables.PasswordExpiry.RecordChange` | src/lib.rs:1893-1961 | upserts a row that expires its lifetime after its generation, the generation being the clock reading or one more than the last, or deletes it, and stages the committed values |
| `LoginTables.PasswordExpiry.PersistGraceUse` | src/lib.rs:1712-1755 | fails, leaving the table alone, exactly on a contradiction |
| `LoginTables.GenerationNeverDecreases` | src/lib.rs:1897-1915 | generations never decrease along a run and strictly increase once a password is changed, whatever the clock reads |
| `LoginTables.StaleGraceNeverApplies` | src/lib.rs:1724-1749 | a grace event queued against any password before a change leaves every later row alone |
| `Transactions.TransactionIsItsSurvivors` | src/pending_cache_op.rs:185-307 | however savepoints nest, a transaction's writes are those of the operations no rollback undid, and the pair applied for a user is that of the last of them on that user |
| `Transactions.LockOpsAgree` | src/lib.rs:2048-2257 | after any operations, a lock decision left staged is true of the row they leave, and only lock operations on the user touch that row |
| `Transactions.ExpiryOpsAgree` | src/lib.rs:1893-1961 | after any operations, an expiry decision left staged is the row they leave, and only expiry operations on the user touch that row |
| `Transactions.StagedDecisionsAgree` | src/pending_cache_op.rs:438-470 | at commit of any transaction each staged decision is true of the committed row, and a missing one means an unchanged row unless that half of the pair was lost |
| `Transactions.LockStagedIff` | src/pending_cache_op.rs:185-217 | a lock decision is staged if and only if the user's last surviving operation is a lock operation |
| `Transactions.ExpiryStagedIff` | src/pending_cache_op.rs:185-217 | an expiry decision is staged if and only if the user's last surviving operation is a password operation |
| `Transactions.MixedTransactionDropsLock` | src/pending_cache_op.rs:197-200 | whenever a failure locks and the same transaction then changes the password, it commits a new lockout with no lock decision staged |
| `Transactions.MixedTransactionDropsExpiry` | src/pending_cache_op.rs:197-200 | whenever a password change is followed by a lock operation, the transaction commits a new generation with no expiry decision staged |
| `Transactions.KeptGenerationsGrow` | src/lib.rs:1897-1915 | a transaction that deletes no password row never lowers a generation and raises that of every user it has a password operation on |
| `Transactions.LastChangeIsWritten` | src/lib.rs:1893-1961 | when the last operation on a user is a password change, the committed row expires its lifetime after its generation and has its grace |
| `Transactions.ChangedRowHasFailure` | src/lib.rs:2048-2067 | a row is new or different only if a failure was recorded for its user |
| `LockCoherence.CommitKeepsCoherent` | src/lock_cache.rs:249-321 | a commit whose decisions are true and await their callback keeps cache and table coherent |
| `LockCoherence.ApplyKeepsLockInv` | src/pending_cache_op.rs:438-470 | applying a decision in time makes cache and table agree on its user, and disturbs nobody, unless it records Overflow |
| `LockCoherence.ApplyOverflows` | src/lock_cache.rs:289-292 | the state becomes Overflow, and the slots stay, exactly when an unexpired lockout finds neither its user's slot nor a free or expired one |
| `LockCoherence.ApplyAgreesIff` | src/lock_cache.rs:249-293 | applying a true decision brings agreement if and only if it is not an expired lockout over a live cached one |
| `LockCoherence.LateFailureOutlivesRow` | src/lib.rs:2055-2067 | from any coherent state, a failure recorded by a transaction that began earlier leaves the cache reporting a lockout its row no longer has, if its callback runs between the two expiries |
| `LockCoherence.SnapshotIsComplete` | src/lock_cache.rs:574-592 | a snapshot without overflow contains every active lockout |
| `LockCoherence.HydrationIsReadyIff` | src/lock_cache.rs:574-591 | hydration makes the cache Ready if and only if all active lockouts fit, and Overflow otherwise |
| `LockCoherence.SnapshotExists` | src/lock_cache.rs:478-562 | there always is a snapshot to hydrate from |
| `LockCoherence.HydrateKeepsLockInv` | src/lock_cache.rs:466-661 | hydration makes cache and table agree whenever it reports Ready |
| `LockCoherence.TickKeepsCoherent` | src/lock_cache.rs:148-156 | time passing keeps them in agreement |
| `LockCoherence.CommitKeepsOrder` | src/lib.rs:2055-2067 | failures in order under one lockout length: no cached expiry outlives the lockout about to replace it |
| `LockCoherence.OrderMeansPunctual` | src/lock_cache.rs:249-293 | and then no callback brings an expired lockout over a live cached one |
| `GraceLedger.GraceLoginKeepsInv` | src/expiry_cache.rs:295-380 | a durable grace login moves one unit from cache to journal |
| `GraceLedger.StrandedGraceKeepsInv` | src/auth_journal.rs:161-177 | an event left by a failed sync becomes slack |
| `GraceLedger.PersistKeepsInv` | src/lib.rs:1712-1755 | persisting moves one unit from journal to table, or none for an older password |
| `GraceLedger.CommitExpiryKeepsInv` | src/lib.rs:1893-1961 | a committed password change opens a new account |
| `GraceLedger.RecreatedRowIsSpentIff` | src/lib.rs:1897-1915 | a grace event of generation `g` spends a row written anew at `clock` if and only if `clock` is `g` |
| `GraceLedger.ApplyKeepsFunds` | src/lib.rs:1712-1755 | applying an event moves grace from a row to what has been taken from it, and no more |
| `GraceLedger.ApplyExpiryKeepsInv` | src/pending_cache_op.rs:454-467 | the callback gives the cache the new allowance, pending events of its generation becoming slack, or records Overflow |
| `GraceLedger.HydrateExpiryKeepsInv` | src/lock_cache.rs:716-815 | hydration restores the identity with the pending events as slack |
| `GraceLedger.ExpiryHydrationIsReadyIff` | src/lock_cache.rs:807-815 | expiry hydration makes the cache Ready if and only if all rows fit, and Overflow otherwise |
| `GraceLedger.ApplyExpiryOverflows` | src/expiry_cache.rs:393-428 | a callback records Overflow exactly when it finds neither its user's slot nor a free one |
| `GraceLedger.LossKeepsInv` | src/expiry_cache.rs:166-200 | losing the cache loses no account |
| `GraceLedger.PendingIsCovered` | src/lib.rs:1712-1755 | pending events of the current password never exceed the row's grace plus slack |
| `GraceLedger.GraceLoginsWithinAllowance` | src/lib.rs:1712-1755 | grace logins ever recorded under the current generation exceed what was granted under it by at most the slack |
| `GraceLedger.GraceBalance` | src/expiry_cache.rs:295-380 | recorded grace logins plus what the cache offers equals allowance plus slack |
| `GraceLedger.NoSlackNoContradiction` | src/lib.rs:1749-1754 | without slack the contradiction error is unreachable |
| `GraceLedger.ContradictionIff` | src/lib.rs:1735-1754 | the contradiction error is met if and only if the event is of the current generation and cached plus pending grace equals the slack |
| `RetryDegrade.RetrySequence.MarkAffected` | src/worker.rs:120-129 | demotes exactly the affected caches that are Ready and remembers them |
| `RetryDegrade.RetrySequence.RestoreDegraded` | src/worker.rs:138-157 | restores exactly what it demoted and still finds demoted, and reports incomplete coverage |
| `RetryDegrade.LockDemotion` | src/worker.rs:120-129 | over every retry sequence the lock cache is demoted by us if and only if an attempt demoted it from Ready with no overflow since |
| `RetryDegrade.ExpiryDemotion` | src/worker.rs:120-129 | the same for the expiry cache |
| `RetryDegrade.RestoreIsEarned` | src/worker.rs:89-158 | restoring turns a cache Ready if and only if this sequence demoted it from Ready and no overflow was recorded since |
| `RetryDegrade.UnaffectedStatesStay` | src/worker.rs:89-158 | a cache the event does not affect keeps its state |
| `RetryDegrade.AttemptTakesDown` | src/worker.rs:89-129 | a failed attempt takes down the expiry cache only for a grace event, and the lock cache for any other and for a grace event that clears attempts; only a Ready one |
| `RetryDegrade.RestoreReportsLoss` | src/worker.rs:138-157 | restoring reports incomplete coverage exactly when a cache this sequence took down has overflowed since |
| `WorkerHealth.Marker.MarkDurableFailure` | src/worker_health.rs:176-182 | stores the stamp and never the healthy value |
| `WorkerHealth.Marker.DurableDegradedSince` | src/worker_health.rs:190-195 | none exactly when healthy |
| `WorkerHealth.Marker.ClearDurableDegraded` | src/worker_health.rs:206-212 | clears exactly when the marker is the observed one |
| `WorkerHealth.StepKeepsMarkerInv` | src/worker.rs:289-345 | each interleaved step keeps: a non-zero marker is the last stamp, and with distinct stamps zero means every failure is answered |
| `WorkerHealth.RunsKeepMarkerInv` | src/worker.rs:289-345 | so does every run |
| `WorkerHealth.ClearanceIsJustified` | src/worker.rs:415-431 | the marker returns to healthy only at the end of a pass that read it first, rebuilt each cache an enabled feature consults and the exemptions, and found the quiet period elapsed; with distinct stamps every failure precedes that read |
| `WorkerHealth.ClearsExactlyWhen` | src/worker.rs:323-335 | a pass clears the marker if and only if it is still the one read, the quiet period elapsed, and what the enabled features consult was rebuilt; what they do not consult does not matter |
| `WorkerHealth.LaterFailureBlocksIff` | src/worker_health.rs:206-212 | a failure after the read blocks the clearance if and only if its stamp differs from the observed one |
| `WorkerHealth.HealthyMeansAnswered` | src/worker.rs:294-335 | with distinct stamps the marker is healthy if and only if the last clearance covered every failure |
| `WorkerHealth.EqualStampsAreErased` | src/worker_health.rs:197-212 | a run in which a failure during the rebuild is erased because its stamp equals the observed one |
| `SystemHealth.JointRunsKeepInv` | src/worker.rs:289-345 | beside every run of the system: failures a pass counted precede its read, and what it rebuilt was rebuilt after it |
| `SystemHealth.StepsAreCharted` | src/auth_event.rs:656-672 | a failed append stamps the marker with the clock, and exactly the hydrations that succeed count as rebuilds |
| `SystemHealth.HealthyMeansRebuilt` | src/worker.rs:415-431 | with distinct stamps, a healthy marker means that since the last start no append failed after the read of the last clearance and that every cache it required was rebuilt after that read |
| `SystemInvariant.StepKeepsPipeline` | src/worker.rs:811-1136 | every system action keeps the pipeline invariant |
| `SystemInvariant.RunsKeepPipeline` | src/worker.rs:811-1136 | and so does every system run |
| `SystemInvariant.StepKeepsLockPart` | src/lock_cache.rs:249-321 | every safe system action keeps a trusted lock cache and its table coherent |
| `SystemInvariant.LockPartSurvivesIff` | src/lock_cache.rs:249-321 | and an action keeps them so if and only if it is safe: no lock half lost, and a callback in time |
| `SystemInvariant.LockSafeRunsKeepLockPart` | src/lock_cache.rs:249-321 | so every safe run keeps them coherent |
| `SystemInvariant.StepKeepsGracePart` | src/expiry_cache.rs:295-380 | every safe system action keeps the grace ledger balanced |
| `SystemInvariant.GraceSafeRunsKeepGracePart` | src/expiry_cache.rs:295-380 | so every safe run keeps it balanced |
| `SystemInvariant.StatesOnlyKeepsContents` | src/worker.rs:89-158 | demotion and restoration never trust a cache that was not trusted |
| `SystemTheorems.StepProjects` | src/worker.rs:811-1136 | every system action is a sequence of pipeline steps for the pipeline |
| `SystemTheorems.RunsProject` | src/worker.rs:811-1136 | every system run is a pipeline run for the pipeline |
| `SystemTheorems.SystemAppliesExactlyOnce` | src/worker.rs:938-1136 | exactly-once, in-order application holds in every run of the composed system; what an application does is in the rows below |
| `SystemEffects.CommitRecordsLogin` | src/worker.rs:651-672 | a first commit does to `login_attempts` what kind and flags say: a failure of a non-exempt user counts one more, or one anew, and locks at the threshold; a flagged success or grace event takes the row unless a lockout is active; everything else, every other user and every repeated commit leave it alone |
| `SystemEffects.CommitTakesGrace` | src/worker.rs:660-671 | a first commit of a grace event takes one grace login from the row of its generation, and nothing else moves |
| `SystemEffects.LoginIsRecorded` | src/auth_event.rs:656-687 | a login is the newest record of the journal unless its append was partial, reaches the ring exactly when it was synced and there is room, and takes a cached grace exactly when it was synced |
| `SystemEffects.RunsRecordLogins` | src/lib.rs:2048-2257 | over every run with one policy for the user, its row is what the logins recorded for it, by worker and backends, make of the row it had |
| `SystemEffects.TableHoldsStreaks` | src/lib.rs:2048-2257 | in every such run from the start the table holds the current streak of failures, and the user is locked if and only if it is threshold-long |
| `SystemEffects.ThresholdOfFailuresLocks` | src/lib.rs:2048-2067 | a run that records a threshold of failures, with no clear between and no lockout running out before one, ends with the user locked |
| `SystemStates.RunsKeepRetryInv` | src/worker.rs:811-835 | in every run failures are counted only while an event is held, demotions remembered only while failures are counted, and a remembered cache is down |
| `SystemStates.RollBackTakesDown` | src/worker.rs:1114-1136 | in every reachable state a rolled-back attempt takes down exactly the Ready caches its event may have left behind, keeps the event in hand and changes no table |
| `SystemStates.CallbackRestores` | src/worker.rs:1089-1112 | in every reachable state the commit that ends a retry sequence leaves what the sequence took down Ready, or Overflow if it has overflowed since, and returns to hydration exactly in the second case |
| `SystemStates.LockStateMoves` | src/worker.rs:434-480 | over all actions: Overflow exactly when lockouts or a callback's entry do not fit, NotReady after a crash or a failed hydration, WorkerFailed from Ready by a failed attempt or with the worker, Ready by a hydration that fits or the end of the retry sequence; no other action moves the lock cache's state |
| `SystemStates.ExpiryStateMoves` | src/worker.rs:482-522 | the same for the expiry cache |
| `SystemStates.ReadyIsEarned` | src/worker.rs:1463-1478 | in every run a cache is Ready only on the strength of a hydration of its own with no crash, failed hydration or stop of the worker after it |
| `SystemTheorems.LockCacheIsCoherent` | src/lock_cache.rs:249-321 | in every safe run, whenever the lock cache is Ready and no commit of a user waits for its callback, the user's live cached lockout is the live lockout of its row |
| `SystemTheorems.CoherenceSurvivesIff` | src/lock_cache.rs:249-321 | from a coherent state with a Ready cache, cache and table agree after a step if and only if the step is safe |
| `SystemOrder.OrderedStepIsSafe` | src/lib.rs:2048-2067 | a step of a run with failures in order, one lockout length and no lock half lost is safe |
| `SystemOrder.StepKeepsOrder` | src/lib.rs:2048-2067 | and keeps the order |
| `SystemOrder.OrderedRunsStayCoherent` | src/lock_cache.rs:249-321 | so every such run is safe throughout and its lock cache coherent |
| `SystemHydration.HydrateLockNow` | src/lock_cache.rs:466-599 | from a hydrating worker with no commit in flight the lock cache can be hydrated: Ready exactly if the active lockouts fit, and then in agreement with the table |
| `SystemHydration.HydrateExpiryNow` | src/lock_cache.rs:716-815 | likewise the expiry cache, which then shows every row |
| `SystemHydration.RestartHeals` | src/worker.rs:1194-1225 | from every reachable state, unsafe steps notwithstanding, a crash and one hydration of each cache lead to a state of the same tables in which each cache is Ready if and only if its table fits, and says what the table says |
| `SystemTheorems.GraceIsConserved` | src/expiry_cache.rs:295-380 | in every safe run, cached plus pending equals table plus slack, and recorded plus cached equals allowance plus slack |
| `SystemTheorems.ConservationSurvivesIff` | src/pending_cache_op.rs:185-217 | from a balanced state with a Ready cache, every account balances after a step if and only if the step loses no expiry half |
| `SystemOrder.KeptStepIsSafe` | src/lib.rs:1897-1915 | a step of a run that deletes no password row and loses no expiry half is safe |
| `SystemOrder.KeptRunsConserveGrace` | src/expiry_cache.rs:295-380 | so every such run is safe throughout and conserves grace |
| `SystemOrder.KeptCommitIsNewer` | src/lib.rs:1897-1915 | while rows are kept a password change writes a newer generation, whatever its clock reads |
| `SystemOrder.KeptStepIsClean` | src/lib.rs:1897-1915 | so callbacks and crashes are clean by themselves: no event is about a row that awaits its callback |
| `SystemOrder.SettledRunsNeverOverAdmit` | src/lib.rs:1712-1755 | in every run that keeps its rows, loses no expiry half, hydrates over no pending grace event and meets no failed sync on a grace login, recorded grace logins of every user stay within the allowance, in flight or not, and the contradiction error is never met |
| `SystemTheorems.AccountsStayExactIff` | src/expiry_cache.rs:295-380 | from exact accounts, a step that ends with a trusted cache keeps cached plus pending equal to the table for every user not in flight if and only if hydration and callback find no event of the row they install pending, no grace login meets a failed sync, and no expiry half is lost |
| `SystemTheorems.ExactMeansNoSlack` | src/expiry_cache.rs:295-380 | the accounts of a trusted cache are exact if and only if there is no slack |
| `SystemTheorems.CrashStaysPaidIff` | src/lib.rs:1712-1755 | after a crash every row can pay for its pending events if and only if no lost callback belongs to a row with more of them than grace |
| `SystemTheorems.CleanRunsKeepNoSlack` | src/lock_cache.rs:785-791 | runs of clean steps stay without slack |
| `SystemTheorems.CleanRunsNeverOverAdmit` | src/lib.rs:1712-1755 | in every clean run, for every user not in flight, recorded grace logins stay within what was granted, the row can pay for every pending event, the account is exact, and the contradiction error is never met |
| `SystemExpiry.ChangeIsCommitted` | src/lib.rs:1893-1961 | a committed password change leaves a row that expires its lifetime after its generation, with its grace, and puts exactly that row in flight |
| `SystemExpiry.NewPasswordAnswers` | src/expiry_cache.rs:233-270 | after its callback, while the cache is Ready, a login is told not expired exactly while the lifetime has not passed, and after that with grace exactly if some was granted |
| `SystemExpiry.CleanRunsAnswer` | src/lib.rs:795-836 | in every clean run a login is told not expired exactly before the date of its row, with grace exactly while fewer grace logins are recorded than were granted, and none left once they are as many |
| `SystemExpiry.GraceRunsOut` | src/expiry_cache.rs:295-380 | as many grace logins as the cache offers are consumed one after the other |
| `SystemExpiry.NoneLeft` | src/lib.rs:820-823 | and then every further attempt is told that no grace is left |
| `GraceCounterexample.FirstPassword` | src/lib.rs:1893-1961 | a reachable state with one grace login left, a day after a first password change |
| `GraceCounterexample.HydrateThenLogin` | src/lock_cache.rs:785-791 | from it, one more hydration attempt and login records one more grace login and returns to such a state |
| `GraceCounterexample.RetriedHydrationOverAdmits` | src/expiry_cache.rs:477-492 | hence a run in which an allowance of one is used twice |
| `GraceCounterexample.OverAdmissionBlocksJournal` | src/lib.rs:1749-1754 | in that state no record is torn, yet no continuation without a backend transaction ever drains the journal |
| `GraceCounterexample.RecreateRow` | src/lib.rs:1953-1961 | expiry can be disabled and enabled again at any clock reading |
| `GraceCounterexample.OldEventSpendsNewAllowance` | src/lib.rs:1712-1755 | a run in which a grace event of an old password takes the one grace login of a new password of the same generation, without any login |

## Left out

- PostgreSQL itself: SQL text, snapshots, SPI and locking; a transaction is one atomic step that holds its per-user lock until after its commit callback, and PREPARE is not modelled.
- File-system semantics beyond "bytes written survive a crash, the last record possibly torn": directory syncs, permissions and read errors inside a record are not modelled.
- The checksum and UTF-8 validity are arbitrary functions; event ids are assumed distinct, and a block that straddles a torn record is assumed not to decode.
- `consume_events` and `hydrate_caches_with_retry` are protocol steps rather than loops with local variables; the model lets the worker return to hydration, or start consuming, at any top of its loop, which covers the code's conditions for doing so; the drain theorem takes it that hydration succeeds in the end and that waits for per-user locks do.
- SystemTheorems.LockCacheIsCoherent: only for runs of safe steps, since the property is false of the others (`CoherenceSurvivesIff`); the clock does not go backward, though the readings of password changes may.
- SystemTheorems.GraceIsConserved: only for runs of safe steps, since the property is false of the others (`ConservationSurvivesIff`).
- SystemTheorems.CleanRunsNeverOverAdmit: says nothing of a user whose password change still awaits its callback; `SettledRunsNeverOverAdmit` does.
- Timestamps and intervals are unbounded integers in the tables; the codec and the cache arithmetic model the 64-bit range.
- RetryDegrade.RetrySequence.MarkAffected: one atomic step, as is the restoration; the source reads and writes each state in separate lock sections.
- PendingOps.PendingState.StageAck: a later acknowledgement replaces an earlier one, and rolling its savepoint back does not bring the earlier one back; the worker stages one per transaction.
- Superuser and bypass exemptions are one boolean of a worker commit; the bypass cache is replaced wholesale and adds only easy members.
- `client_auth_hook` and `enforcement_pause_reason` are flat decisions over the cache answers modelled here; the pause is read before and outside the locks a grace login takes, so it excludes no interleaving of the model.
- Role rename and removal re-seed the caches from the tables and ignore events queued under the old name.
- Password complexity, history and blacklist rules; bcrypt and event-id generation.
- Logging, warnings, statistics, configuration, shared-memory allocation, signals, latches and backoff delays.
