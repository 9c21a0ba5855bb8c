/** The lock cache against `login_attempts`: every step that touches either
    keeps them telling the same story about live lockouts.
 */
module LockCoherence {
  import opened AuthTypes
  import opened LockCache
  import opened NameSets
  import opened PendingOps
  import opened LoginTables
  import opened Transactions

  /** `inflight` holds the decisions of transactions that have committed but
      whose callback has not yet reached that user; the per-user lock is held
      meanwhile, so there is at most one per user. */
  datatype LockSide = LockSide(
    attempts: map<Name, AttemptRow>,
    slots: seq<Slot>,
    state: CacheState,
    inflight: map<Name, CacheDecision>)

  function EmptyLockCache(): seq<Slot> {
    FreeSlots(LOCK_CACHE_SIZE)
  }

  function LockUntil(lk: LockSide, u: Name): Option<int> {
    UntilOf(RowOf(lk.attempts, u))
  }

  // ---------------------------------------------------------------------
  // Steps
  // ---------------------------------------------------------------------

  /** A commit becomes durable; its staged decisions await the callback. */
  function CommitAttempts(lk: LockSide, attempts: map<Name, AttemptRow>,
                          decisions: map<Name, CacheDecision>): LockSide
  {
    lk.(attempts := attempts, inflight := lk.inflight + decisions)
  }

  /** The callback applies one staged lock decision. */
  function ApplyDecision(lk: LockSide, u: Name, now: int): LockSide
    requires u in lk.inflight
  {
    match lk.inflight[u]
    case ClearLock => lk.(slots := ClearSlots(lk.slots, u), inflight := lk.inflight - {u})
    case SetLock(e) =>
      var (slots, status) := SetSlots(lk.slots, u, e, now);
      lk.(slots := slots, state := if status == Overflowed then Overflow else lk.state,
          inflight := lk.inflight - {u})
  }

  /** Users with a lockout active at `t0`. */
  ghost function ActiveUsers(attempts: map<Name, AttemptRow>, t0: int): set<Name> {
    set u | u in attempts && LiveOnly(attempts[u].lockoutUntil, t0).Some?
  }

  /** What the bounded SELECT can return at `t0`: distinct active rows, as many
      as fit. */
  ghost predicate IsSnapshot(attempts: map<Name, AttemptRow>, t0: int, prepared: seq<Slot>) {
    && DistinctPrepared(prepared)
    && |prepared| == (if |ActiveUsers(attempts, t0)| < LOCK_CACHE_SIZE
                      then |ActiveUsers(attempts, t0)| else LOCK_CACHE_SIZE)
    && forall i :: 0 <= i < |prepared| ==>
         prepared[i].user in ActiveUsers(attempts, t0)
         && attempts[prepared[i].user].lockoutUntil == Some(prepared[i].expiresAt)
  }

  /** `hydrate_from_db`: read at `t0` under the table lock, applied at `now`. */
  ghost function HydrateLocks(lk: LockSide, prepared: seq<Slot>, t0: int, now: int): LockSide {
    var overflow := |ActiveUsers(lk.attempts, t0)| - |prepared|;
    lk.(slots := HydratedSlots(prepared, now), state := if overflow > 0 then Overflow else Ready)
  }

  // ---------------------------------------------------------------------
  // Invariant
  // ---------------------------------------------------------------------

  ghost predicate RowsNamed(attempts: map<Name, AttemptRow>) {
    forall u :: u in attempts ==> Occupied(u)
  }

  /** The cache and the table report the same live lockout for `u`. */
  ghost predicate SameLockout(lk: LockSide, u: Name, clock: int) {
    LiveAt(lk.slots, u, clock) == LiveOnly(LockUntil(lk, u), clock)
  }

  /** An in-flight decision is true of the row. */
  ghost predicate InflightOk(lk: LockSide, u: Name, clock: int)
    requires u in lk.inflight
  {
    Occupied(u) && Agrees(lk.inflight[u], RowOf(lk.attempts, u), clock)
  }

  ghost predicate Coherent(lk: LockSide, clock: int) {
    && (forall u :: u !in lk.inflight ==> SameLockout(lk, u, clock))
    && (forall u :: u in lk.inflight ==> InflightOk(lk, u, clock))
  }

  ghost predicate LockInv(lk: LockSide, clock: int, trusted: bool) {
    && |lk.slots| == LOCK_CACHE_SIZE && UniqueUsers(lk.slots)
    && RowsNamed(lk.attempts)
    && (trusted ==> Coherent(lk, clock))
  }

  // ---------------------------------------------------------------------
  // Preservation
  // ---------------------------------------------------------------------

  lemma TickKeepsCoherent(lk: LockSide, clock: int, clock': int)
    requires clock <= clock' && Coherent(lk, clock)
    ensures Coherent(lk, clock')
  {
    forall u | u !in lk.inflight ensures SameLockout(lk, u, clock') {
      assert SameLockout(lk, u, clock);
    }
    forall u | u in lk.inflight ensures InflightOk(lk, u, clock') {
      assert InflightOk(lk, u, clock);
    }
  }

  /** What a committing transaction (or the worker's event) does to one user: a
      staged decision is true of the committed row, and without one the row is
      the old one as far as live lockouts go. */
  ghost predicate CommitOk(lk: LockSide, attempts: map<Name, AttemptRow>,
                           decisions: map<Name, CacheDecision>, clock: int, u: Name)
  {
    var before, after := RowOf(lk.attempts, u), RowOf(attempts, u);
    && (u in decisions ==> Occupied(u) && u !in lk.inflight && Agrees(decisions[u], after, clock))
    && (u !in decisions ==>
          after == before || (u !in lk.inflight && LiveOnly(UntilOf(after), clock) == LiveOnly(UntilOf(before), clock)))
  }

  lemma CommitKeepsCoherent(lk: LockSide, attempts: map<Name, AttemptRow>, decisions: map<Name, CacheDecision>,
                            clock: int)
    requires Coherent(lk, clock)
    requires forall u :: CommitOk(lk, attempts, decisions, clock, u)
    ensures Coherent(CommitAttempts(lk, attempts, decisions), clock)
  {
    var lk' := CommitAttempts(lk, attempts, decisions);
    forall u | u !in lk'.inflight ensures SameLockout(lk', u, clock) {
      assert CommitOk(lk, attempts, decisions, clock, u);
      assert SameLockout(lk, u, clock);
    }
    forall u | u in lk'.inflight ensures InflightOk(lk', u, clock) {
      assert CommitOk(lk, attempts, decisions, clock, u);
      assert u !in decisions ==> InflightOk(lk, u, clock);
    }
  }

  /** The callback is in time: it does not bring an expired lockout to a user
      for whom the cache still reports one. */
  predicate Punctual(lk: LockSide, u: Name, now: int)
    requires u in lk.inflight
  {
    !(lk.inflight[u].SetLock? && lk.inflight[u].expiresAt <= now && LiveAt(lk.slots, u, now).Some?)
  }

  lemma ApplyKeepsLockInv(lk: LockSide, u: Name, clock: int, trusted: bool)
    requires LockInv(lk, clock, trusted) && u in lk.inflight && (trusted ==> Punctual(lk, u, clock))
    ensures var lk' := ApplyDecision(lk, u, clock);
            LockInv(lk', clock, trusted && lk'.state != Overflow)
  {
    var lk' := ApplyDecision(lk, u, clock);
    AppliedSlots(lk, u, clock, u);
    if trusted && lk'.state != Overflow {
      forall v | v !in lk'.inflight ensures SameLockout(lk', v, clock) {
        AppliedSlots(lk, u, clock, v);
        if v == u {
          assert InflightOk(lk, u, clock);
        } else {
          assert SameLockout(lk, v, clock);
        }
      }
      forall v | v in lk'.inflight ensures InflightOk(lk', v, clock) {
        assert InflightOk(lk, v, clock);
      }
    }
  }

  /** What applying `u`'s decision does to the slots, as seen by `v`. */
  lemma AppliedSlots(lk: LockSide, u: Name, now: int, v: Name)
    requires UniqueUsers(lk.slots) && u in lk.inflight
    ensures var lk' := ApplyDecision(lk, u, now);
            && |lk'.slots| == |lk.slots| && UniqueUsers(lk'.slots)
            && (v != u ==> LiveAt(lk'.slots, v, now) == LiveAt(lk.slots, v, now))
            && (lk.inflight[u] == ClearLock ==> Cached(lk'.slots, u) == None && lk'.state == lk.state)
            && (lk.inflight[u].SetLock? && lk.inflight[u].expiresAt <= now ==> lk'.slots == lk.slots)
            && (lk.inflight[u].SetLock? && lk.inflight[u].expiresAt > now && Occupied(u) ==>
                  lk'.state == Overflow || Cached(lk'.slots, u) == Some(lk.inflight[u].expiresAt))
  {
    match lk.inflight[u]
    case ClearLock =>
      ClearRemovesOneLockout(lk.slots, u, v);
      ClearRemovesOneLockout(lk.slots, u, u);
    case SetLock(e) =>
      SetChangesOneLockout(lk.slots, u, e, now, v, now);
      SetChangesOneLockout(lk.slots, u, e, now, u, now);
  }

  /** An unexpired lockout finds neither its user's slot nor a free or expired
      one. */
  ghost predicate Refused(lk: LockSide, u: Name, now: int)
    requires u in lk.inflight
  {
    && lk.inflight[u].SetLock? && lk.inflight[u].expiresAt > now && Occupied(u)
    && forall i :: 0 <= i < |lk.slots| ==> !Holds(lk.slots[i], u) && !Reusable(lk.slots[i], now)
  }

  /** A refused insertion is never silent: the state becomes Overflow, and the
      slots stay, exactly when it is refused. */
  lemma ApplyOverflows(lk: LockSide, u: Name, now: int)
    requires u in lk.inflight
    ensures ApplyDecision(lk, u, now).state == (if Refused(lk, u, now) then Overflow else lk.state)
    ensures Refused(lk, u, now) ==> ApplyDecision(lk, u, now).slots == lk.slots
  {
  }

  /** Applying a true decision makes cache and table agree on the user exactly
      when it is punctual. */
  lemma ApplyAgreesIff(lk: LockSide, u: Name, now: int)
    requires UniqueUsers(lk.slots) && u in lk.inflight && Occupied(u)
    requires Agrees(lk.inflight[u], RowOf(lk.attempts, u), now)
    requires ApplyDecision(lk, u, now).state != Overflow
    ensures SameLockout(ApplyDecision(lk, u, now), u, now) <==> Punctual(lk, u, now)
  {
    AppliedSlots(lk, u, now, u);
  }

  /** A callback is late when a transaction records a failure after one that
      began later, and the callback runs between the end of the lockout it wrote and
      the end of the one it replaced: the cache then reports a lockout its row
      no longer has. */
  lemma LateFailureOutlivesRow(lk: LockSide, u: Name, policy: Policy, start: int, clock: int, now: int)
    requires UniqueUsers(lk.slots) && Coherent(lk, clock)
    requires Occupied(u) && u in lk.attempts && u !in lk.inflight
    requires lk.attempts[u].lockoutUntil == Some(lk.attempts[u].lastFail + policy.lockoutLen)
    requires lk.attempts[u].failCount + 1 >= policy.threshold
    requires start <= clock < start + policy.lockoutLen <= now
    requires now < lk.attempts[u].lastFail + policy.lockoutLen
    ensures var row := FailRow(Some(lk.attempts[u]), start, policy);
            var decisions := map[u := DecisionFor(row.lockoutUntil, clock)];
            var lk' := ApplyDecision(CommitAttempts(lk, lk.attempts[u := row], decisions), u, now);
            && LiveAt(lk'.slots, u, now) == Some(lk.attempts[u].lastFail + policy.lockoutLen)
            && LiveOnly(LockUntil(lk', u), now) == None
  {
    assert SameLockout(lk, u, clock);
    var row := FailRow(Some(lk.attempts[u]), start, policy);
    var lk1 := CommitAttempts(lk, lk.attempts[u := row], map[u := DecisionFor(row.lockoutUntil, clock)]);
    assert lk1.inflight[u] == SetLock(start + policy.lockoutLen);
    AppliedSlots(lk1, u, now, u);
  }

  /** A snapshot with no overflow contains every active lockout. */
  lemma SnapshotIsComplete(attempts: map<Name, AttemptRow>, t0: int, prepared: seq<Slot>, u: Name)
    requires IsSnapshot(attempts, t0, prepared)
    requires |prepared| == |ActiveUsers(attempts, t0)|
    requires u in ActiveUsers(attempts, t0)
    ensures exists i :: 0 <= i < |prepared| && prepared[i].user == u
  {
    var names := seq(|prepared|, i requires 0 <= i < |prepared| => prepared[i].user);
    DistinctNamesCover(names, ActiveUsers(attempts, t0), u);
    var i :| 0 <= i < |names| && names[i] == u;
    assert prepared[i].user == u;
  }

  /** Hydration makes the cache Ready exactly when all active lockouts fit, and
      Overflow otherwise. */
  lemma HydrationIsReadyIff(lk: LockSide, prepared: seq<Slot>, t0: int, now: int)
    requires IsSnapshot(lk.attempts, t0, prepared)
    ensures HydrateLocks(lk, prepared, t0, now).state ==
              if |ActiveUsers(lk.attempts, t0)| <= LOCK_CACHE_SIZE then Ready else Overflow
  {
  }

  /** There always is a snapshot to hydrate from. */
  lemma SnapshotExists(attempts: map<Name, AttemptRow>, t0: int) returns (prepared: seq<Slot>)
    ensures IsSnapshot(attempts, t0, prepared)
  {
    var all := ActiveUsers(attempts, t0);
    var names := DrawNames(all, if |all| < LOCK_CACHE_SIZE then |all| else LOCK_CACHE_SIZE);
    prepared := seq(|names|, i requires 0 <= i < |names| && names[i] in all =>
                      Slot(names[i], attempts[names[i]].lockoutUntil.value));
  }

  lemma HydrateKeepsLockInv(lk: LockSide, prepared: seq<Slot>, t0: int, now: int)
    requires RowsNamed(lk.attempts)
    requires lk.inflight == map[] && t0 <= now && IsSnapshot(lk.attempts, t0, prepared)
    ensures var lk' := HydrateLocks(lk, prepared, t0, now);
            LockInv(lk', now, lk'.state == Ready)
  {
    var lk' := HydrateLocks(lk, prepared, t0, now);
    HydrationInstallsSnapshot(prepared, now, NoName(), now);
    if lk'.state == Ready {
      forall u ensures SameLockout(lk', u, now) {
        HydrationInstallsSnapshot(prepared, now, u, now);
        if u in ActiveUsers(lk.attempts, t0) {
          SnapshotIsComplete(lk.attempts, t0, prepared, u);
          var i :| 0 <= i < |prepared| && prepared[i].user == u;
          assert LiveAt(lk'.slots, u, now) == LiveOnly(Some(prepared[i].expiresAt), now);
        } else {
          assert forall i :: 0 <= i < |prepared| ==> prepared[i].user != u;
        }
      }
    }
  }

  // ---------------------------------------------------------------------
  // Failures recorded in order are always punctual
  // ---------------------------------------------------------------------

  /** Rows carry a lockout of the configured length from their last failure. */
  ghost predicate RowsOk(attempts: map<Name, AttemptRow>, clock: int, lockoutLen: int) {
    forall u :: u in attempts ==>
      && attempts[u].lastFail <= clock
      && (attempts[u].lockoutUntil.Some? ==>
            attempts[u].lockoutUntil == Some(attempts[u].lastFail + lockoutLen))
  }

  /** No cached expiry outlives a lockout that is about to replace it. */
  ghost predicate NoneOutlives(lk: LockSide, u: Name, clock: int)
    requires u in lk.inflight
  {
    lk.inflight[u].SetLock? && Cached(lk.slots, u).Some? ==>
      Cached(lk.slots, u).value <= lk.inflight[u].expiresAt || Cached(lk.slots, u).value <= clock
  }

  ghost predicate OrderInv(lk: LockSide, clock: int, lockoutLen: int, trusted: bool) {
    && RowsOk(lk.attempts, clock, lockoutLen)
    && (trusted ==> forall u :: u in lk.inflight ==> NoneOutlives(lk, u, clock))
  }

  lemma OrderMeansPunctual(lk: LockSide, u: Name, clock: int, lockoutLen: int)
    requires OrderInv(lk, clock, lockoutLen, true) && u in lk.inflight
    ensures Punctual(lk, u, clock)
  {
    assert NoneOutlives(lk, u, clock);
  }

  /** What commits in order do to one user's row: it is gone, as it was, or that
      of a failure no earlier than the last. */
  ghost predicate RowInOrder(before: Option<AttemptRow>, after: Option<AttemptRow>, start: int, lockoutLen: int) {
    && RowFrom(before, after, start, lockoutLen)
    && (after.Some? && after != before && before.Some? ==> before.value.lastFail <= start)
  }

  lemma CommitKeepsOrder(lk: LockSide, attempts: map<Name, AttemptRow>, decisions: map<Name, CacheDecision>,
                         start: int, clock: int, lockoutLen: int, trusted: bool)
    requires OrderInv(lk, clock, lockoutLen, trusted) && (trusted ==> Coherent(lk, clock)) && start <= clock
    requires forall u :: CommitOk(lk, attempts, decisions, clock, u)
    requires forall u :: RowInOrder(RowOf(lk.attempts, u), RowOf(attempts, u), start, lockoutLen)
    ensures OrderInv(CommitAttempts(lk, attempts, decisions), clock, lockoutLen, trusted)
  {
    var lk' := CommitAttempts(lk, attempts, decisions);
    forall u | u in attempts
      ensures attempts[u].lastFail <= clock
      ensures attempts[u].lockoutUntil.Some? ==>
                attempts[u].lockoutUntil == Some(attempts[u].lastFail + lockoutLen)
    {
      assert RowInOrder(RowOf(lk.attempts, u), RowOf(attempts, u), start, lockoutLen);
    }
    if trusted {
      forall u | u in lk'.inflight ensures NoneOutlives(lk', u, clock) {
        assert CommitOk(lk, attempts, decisions, clock, u);
        assert RowInOrder(RowOf(lk.attempts, u), RowOf(attempts, u), start, lockoutLen);
        if u in decisions {
          assert SameLockout(lk, u, clock);
        } else {
          assert NoneOutlives(lk, u, clock);
        }
      }
    }
  }

  lemma ApplyKeepsOrder(lk: LockSide, u: Name, clock: int, lockoutLen: int, trusted: bool)
    requires OrderInv(lk, clock, lockoutLen, trusted) && UniqueUsers(lk.slots) && u in lk.inflight
    ensures OrderInv(ApplyDecision(lk, u, clock), clock, lockoutLen, trusted)
  {
    var lk' := ApplyDecision(lk, u, clock);
    if trusted {
      forall v | v in lk'.inflight ensures NoneOutlives(lk', v, clock) {
        AppliedSlots(lk, u, clock, v);
        assert NoneOutlives(lk, v, clock);
      }
    }
  }
}
