/** When the journal files strand what was written: a torn append that was
    appended over, after which no continuation ever reads on.
 */
module StuckJournal {
  import opened AuthTypes
  import opened EventProtocol
  import opened EventRing

  lemma {:induction false} ReachesConcat(s: State, a: seq<Action>, s': State, b: seq<Action>, s'': State)
    requires Reaches(s, a, s') && Reaches(s', b, s'')
    ensures Reaches(s, a + b, s'')
    decreases |a|
  {
    if a == [] {
      assert a + b == b;
    } else {
      ReachesConcat(Step(s, a[0]), a[1..], s', b, s'');
      assert (a + b)[0] == a[0] && (a + b)[1..] == a[1..] + b;
    }
  }

  lemma ReachesStep(s: State, a: Action)
    requires Enabled(s, a)
    ensures Reaches(s, [a], Step(s, a))
  {
    assert [a][1..] == [];
  }

  /** An append landed behind a torn one, or the batch cannot be deleted while
      there are records behind it. */
  predicate Stuck(s: State) {
    || Unreadable(s.processing) != [] || s.active.lost != []
    || (!Verifies(s.processing) && s.active.records != [])
  }

  /** Reading stops for good after the first `n` records written: a file with an
      undecodable block holds all that comes next. */
  predicate Blocked(s: State, n: nat) {
    || (!Verifies(s.processing) && |s.removed| + |Records(s.processing)| <= n)
    || (!Verifies(Some(s.active)) && |s.removed| + |Records(s.processing)| + |s.active.records| <= n)
  }

  lemma StepKeepsBlocked(s: State, a: Action, n: nat)
    requires Inv(s) && Blocked(s, n) && Enabled(s, a)
    ensures Blocked(Step(s, a), n)
  {
  }

  /** Once blocked, always blocked: no continuation, with whatever further
      appends, crashes and recoveries, applies more than `n` events, and the ring
      is never reset by the administrator again. */
  lemma {:induction false} BlockedForGood(s: State, n: nat, more: seq<Action>, s': State)
    requires Inv(s) && Blocked(s, n) && Reaches(s, more, s')
    ensures Blocked(s', n) && |s'.applied| <= n && !Enabled(s', RecoverRing)
    decreases |more|
  {
    if more != [] {
      StepKeepsInv(s, more[0]);
      StepKeepsBlocked(s, more[0], n);
      BlockedForGood(Step(s, more[0]), n, more[1..], s');
    }
  }

  /** A stuck journal is blocked before its end. */
  lemma StuckIsBlocked(s: State) returns (n: nat)
    requires Inv(s) && Stuck(s)
    ensures Blocked(s, n) && n < |s.written|
  {
    n := |s.removed| + |Records(s.processing)|;
    if Verifies(s.processing) {
      n := n + |s.active.records|;
    }
  }

  /** `k` bytes of a record get into the file, and then a whole one. */
  ghost predicate TornThenAppended(s: State, k: nat, now: int, e: Event, s': State) {
    && Enabled(s, AppendPartial(k, now)) && Enabled(Step(s, AppendPartial(k, now)), Append(e))
    && s' == Step(Step(s, AppendPartial(k, now)), Append(e))
  }

  lemma TornIsBlocked(s: State, k: nat, now: int, e: Event, s': State)
    requires Inv(s) && s.active.tail == 0 && k > 0 && TornThenAppended(s, k, now, e, s')
    ensures Inv(s') && Blocked(s', |s.written|) && s'.written == s.written + [e]
  {
    StepKeepsInv(s, AppendPartial(k, now));
    StepKeepsInv(Step(s, AppendPartial(k, now)), Append(e));
  }

  lemma AppendIsReportedDurable(q: Queue, e: Event)
    ensures Enqueue(q, e).1.outcome.IsDurable()
  {
  }

  /** No continuation applies the event at which reading is blocked. */
  lemma BlockedEventIsStranded(s: State, n: nat, more: seq<Action>, s': State)
    requires Inv(s) && Blocked(s, n) && n < |s.written| && Reaches(s, more, s')
    ensures |s'.applied| <= n < |s'.written| && s'.written[n] == s.written[n] && s.written[n] !in s'.applied
  {
    BlockedForGood(s, n, more, s');
    WrittenOnlyGrows(s, more, s');
    RunsKeepInv(s, more, s');
    assert forall i :: 0 <= i < |s'.applied| ==> s'.applied[i] == s'.written[i] && s'.written[i].id != s'.written[n].id;
  }

  /** A torn append breaks the promise, in whatever reachable state with a clean
      active file it happens: the next append is reported durable, and no
      continuation ever applies its event or anything after it. */
  lemma {:induction false} TornAppendStrandsTheNext(acts: seq<Action>, s: State, k: nat, now: int, e: Event,
                                                    s1: State, more: seq<Action>, s': State)
    requires Reaches(INIT, acts, s) && s.active.tail == 0 && k > 0 && TornThenAppended(s, k, now, e, s1)
    requires Reaches(s1, more, s')
    ensures Enqueue(Step(s, AppendPartial(k, now)).ring, e).1.outcome.IsDurable()
    ensures |s.written| < |s'.written| && s'.written[|s.written|] == e
    ensures |s'.applied| <= |s.written| && e !in s'.applied
  {
    InitKeepsRingInv();
    RunsKeepInv(INIT, acts, s);
    TornIsBlocked(s, k, now, e, s1);
    AppendIsReportedDurable(Step(s, AppendPartial(k, now)).ring, e);
    BlockedEventIsStranded(s1, |s.written|, more, s');
  }

  lemma {:induction false} WrittenOnlyGrows(s: State, more: seq<Action>, s': State)
    requires Reaches(s, more, s')
    ensures s.written <= s'.written
    decreases |more|
  {
    if more != [] {
      LogMovesOnlyBy(s, more[0]);
      WrittenOnlyGrows(Step(s, more[0]), more[1..], s');
    }
  }

  // ---------------------------------------------------------------------
  // A worker that met an undecodable block
  // ---------------------------------------------------------------------

  /** The worker does nothing until the ring is recovered or the server restarted. */
  predicate Halted(s: State) {
    s.worker.Stopped? || (s.worker.Suspended? && s.ring.state == Corrupt)
  }

  /** A Corrupt ring stays so until a restart or a recovery that is not refused;
      a refused one changes neither ring nor worker. */
  lemma CorruptUntilRecovered(s: State, a: Action)
    requires s.ring.state == Corrupt && Enabled(s, a)
    ensures Step(s, a).ring.state != Corrupt <==> a.Crash? || a.RecoverRing?
    ensures a.RecoverRingRefused? ==> Step(s, a).ring == s.ring && Step(s, a).worker == s.worker
  {
  }

  lemma {:induction false} HaltedUntilRecovered(s: State, acts: seq<Action>, s': State)
    requires Halted(s) && Reaches(s, acts, s')
    requires forall i :: 0 <= i < |acts| ==> !acts[i].Crash? && !acts[i].RecoverRing?
    ensures Halted(s') && s'.applied == s.applied && s'.receipts == s.receipts && s'.removed == s.removed
    decreases |acts|
  {
    if acts != [] {
      if s.ring.state == Corrupt {
        CorruptUntilRecovered(s, acts[0]);
      }
      HaltedUntilRecovered(Step(s, acts[0]), acts[1..], s');
    }
  }

  /** A worker that reads an undecodable block marks the ring Corrupt, keeping its
      events, and suspends itself, as one that finds the ring Corrupt does; no
      continuation without a restart or a recovery applies, receipts or deletes
      anything more. */
  lemma {:induction false} UndecodableBlockHalts(s: State, a: Action, acts: seq<Action>, s': State)
    requires (a.ReadCorrupt? || a.SuspendOnCorrupt?) && Enabled(s, a) && Reaches(Step(s, a), acts, s')
    requires forall i :: 0 <= i < |acts| ==> !acts[i].Crash? && !acts[i].RecoverRing?
    ensures Step(s, a).ring.held == s.ring.held
    ensures Halted(s') && s'.applied == s.applied && s'.receipts == s.receipts && s'.removed == s.removed
  {
    HaltedUntilRecovered(Step(s, a), acts, s');
  }

  /** A suspended worker can be recovered without a restart if and only if both
      files verify; it then starts anew with an empty ring, every record and every
      receipt still there. */
  lemma RecoveryResumes(s: State)
    requires s.worker.Suspended? && s.ring.state == Corrupt
    ensures Verifies(s.processing) && Verifies(Some(s.active)) <==>
              exists s' ::
                && Reaches(s, [RecoverRing, ResumeAfterRecovery, StartConsuming], s')
                && s'.worker.Idle? && s'.ring == NEW_QUEUE
                && Records(s'.processing) == Records(s.processing) && s'.active.records == s.active.records
                && s'.written == s.written && s'.applied == s.applied && s'.receipts == s.receipts
  {
    if Verifies(s.processing) && Verifies(Some(s.active)) {
      var s1 := Step(s, RecoverRing);
      var s2 := Step(s1, ResumeAfterRecovery);
      var s3 := Step(s2, StartConsuming);
      var acts := [RecoverRing, ResumeAfterRecovery, StartConsuming];
      assert acts[1..] == [ResumeAfterRecovery, StartConsuming] && acts[1..][1..] == [StartConsuming];
      assert acts[1..][1..][1..] == [];
      assert Reaches(s2, [StartConsuming], s3);
      assert Reaches(s1, acts[1..], s3);
      assert Reaches(s, acts, s3);
    }
  }

  /** A failure to delete a finished batch or its receipts loses nothing: the
      worker is back where it reads a batch again, or rotates the next. */
  lemma CleanupFailureLosesNothing(s: State, a: Action)
    requires (a.RemoveBatchFails? || a.DeleteReceiptsFails?) && Enabled(s, a)
    ensures var s' := Step(s, a);
            && s'.processing == s.processing && s'.active == s.active && s'.receipts == s.receipts
            && s'.applied == s.applied && s'.removed == s.removed && s'.ring == s.ring
            && (Enabled(s', OpenBatch) <==> s.processing.Some?)
            && (Enabled(s', Rotate) <==> s.processing.None? && (s.active.records != [] || s.active.tail > 0))
  {
  }
}
