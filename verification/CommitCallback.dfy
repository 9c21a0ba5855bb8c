/** The transaction-commit callback: staged cache operations first, in staging
    order, then the acknowledgement, then the reset.
 */
module CommitCallback {
  import opened AuthTypes
  import opened LockCache
  import opened ExpiryCache
  import opened PendingOps
  import opened EventRing

  /** Both caches as values. */
  datatype Caches = Caches(
    lockSlots: seq<Slot>,
    lockState: CacheState,
    expirySlots: seq<ExpirySlot>,
    expiryState: CacheState)

  /** One staged entry: the lock half, then the expiry half. */
  function ApplyEntry(c: Caches, e: Entry, now: int): Caches {
    ApplyExpiryHalf(ApplyLockHalf(c, e, now), e)
  }

  function ApplyLockHalf(c: Caches, e: Entry, now: int): Caches {
    match e.pair.lock
    case None => c
    case Some(ClearLock) => c.(lockSlots := ClearSlots(c.lockSlots, e.user))
    case Some(SetLock(expiresAt)) =>
      var (slots, status) := SetSlots(c.lockSlots, e.user, expiresAt, now);
      c.(lockSlots := slots, lockState := if status == CacheOpStatus.Overflowed then Overflow else c.lockState)
  }

  function ApplyExpiryHalf(c: Caches, e: Entry): Caches {
    match e.pair.expiry
    case Keep => c
    case ClearExpiry => c.(expirySlots := ClearEntrySlots(c.expirySlots, e.user))
    case SetExpiry(m, g, grace) =>
      var (slots, status) := SetEntrySlots(c.expirySlots, e.user, m, g, grace);
      c.(expirySlots := slots,
         expiryState := if status == CacheOpStatus.Overflowed && Occupied(e.user) then Overflow else c.expiryState)
  }

  /** All entries in order; `clock(i)` is the reading taken for entry `i`. */
  function ApplyEntries(c: Caches, es: seq<Entry>, clock: nat -> int): Caches {
    if es == [] then c
    else ApplyEntry(ApplyEntries(c, es[..|es| - 1], clock), es[|es| - 1], clock(|es| - 1))
  }

  ghost function CachesOf(lock: SharedLockCache, expiry: SharedExpiryCache): Caches
    reads lock, lock.entries, expiry, expiry.entries
  {
    Caches(lock.entries[..], CacheStateFromRaw(lock.state), expiry.entries[..], CacheStateFromRaw(expiry.state))
  }

  method ApplyStaged(e: Entry, lock: SharedLockCache, expiry: SharedExpiryCache, now: int)
    requires lock.Valid() && expiry.Valid()
    modifies lock`state, lock.entries, expiry`state, expiry.entries
    ensures CachesOf(lock, expiry) == ApplyEntry(old(CachesOf(lock, expiry)), e, now)
  {
    match e.pair.lock {
      case None =>
      case Some(SetLock(expiresAt)) => var _ := lock.Set(e.user, expiresAt, now);
      case Some(ClearLock) => lock.Clear(e.user);
    }
    match e.pair.expiry {
      case Keep =>
      case SetExpiry(m, g, grace) => var _ := expiry.SetEntry(e.user, m, g, grace);
      case ClearExpiry => expiry.ClearEntry(e.user);
    }
  }

  /** `apply_all`. */
  method ApplyAll(pending: PendingState, lock: SharedLockCache, expiry: SharedExpiryCache, clock: nat -> int)
    requires pending.Valid() && lock.Valid() && expiry.Valid()
    modifies lock`state, lock.entries, expiry`state, expiry.entries
    ensures CachesOf(lock, expiry) == ApplyEntries(old(CachesOf(lock, expiry)), pending.View(), clock)
    ensures pending.Valid() && pending.View() == old(pending.View()) && pending.ack == old(pending.ack)
  {
    ghost var es := pending.View();
    for i := 0 to pending.len
      invariant pending.Valid() && pending.View() == es && pending.len == |es|
      invariant pending.ack == old(pending.ack)
      invariant CachesOf(lock, expiry) == ApplyEntries(old(CachesOf(lock, expiry)), es[..i], clock)
    {
      assert es[..i + 1][..i] == es[..i];
      var entry := pending.entries[i].value;
      ApplyStaged(entry, lock, expiry, clock(i));
    }
    assert es[..|es|] == es;
  }

  /** `xact_callback` on commit. */
  method OnCommit(pending: PendingState, lock: SharedLockCache, expiry: SharedExpiryCache,
                  ring: AuthEventRing, clock: nat -> int)
    requires pending.Valid() && lock.Valid() && expiry.Valid()
    requires ring.events.Length == RING_SLOTS
    modifies pending, pending.entries, lock`state, lock.entries, expiry`state, expiry.entries, ring
    ensures CachesOf(lock, expiry) == ApplyEntries(old(CachesOf(lock, expiry)), old(pending.View()), clock)
    ensures ring.IndicesValid() == old(ring.IndicesValid())
    ensures ring.IndicesValid() ==>
              ring.View() == if old(pending.ack).Some?
                             then AckClaim(old(ring.View()), old(pending.ack).value.token).0
                             else old(ring.View())
    ensures !ring.IndicesValid() && old(pending.ack).Some? ==> StateFromRaw(ring.state) == Corrupt
    ensures old(pending.ack).None? ==> ring.state == old(ring.state)
    ensures pending.Valid() && pending.View() == [] && pending.ack == None
  {
    ApplyAll(pending, lock, expiry, clock);
    if pending.ack.Some? {
      var _ := ring.AcknowledgeClaim(pending.ack.value.token);
    }
    pending.Reset();
  }

  /** `xact_callback` on abort: shared memory looks as if nothing happened. */
  method OnAbort(pending: PendingState)
    requires pending.Valid()
    modifies pending, pending.entries
    ensures pending.Valid() && pending.View() == [] && pending.ack == None
  {
    pending.Reset();
  }

  ghost predicate DistinctUsers(es: seq<Entry>) {
    forall i, j :: 0 <= i < j < |es| ==> es[i].user != es[j].user
  }

  /** Applying one entry concerns its own user only. */
  lemma EntryLeavesOthers(c: Caches, e: Entry, now: int, v: Name, t: int)
    requires UniqueUsers(c.lockSlots) && UniqueExpiry(c.expirySlots) && now <= t && Occupied(e.user)
    ensures var c' := ApplyEntry(c, e, now);
            && UniqueUsers(c'.lockSlots) && UniqueExpiry(c'.expirySlots)
            && (v != e.user ==> LiveAt(c'.lockSlots, v, t) == LiveAt(c.lockSlots, v, t)
                                && CachedRow(c'.expirySlots, v) == CachedRow(c.expirySlots, v))
  {
    match e.pair.lock {
      case None =>
      case Some(SetLock(expiresAt)) => SetChangesOneLockout(c.lockSlots, e.user, expiresAt, now, v, t);
      case Some(ClearLock) => ClearRemovesOneLockout(c.lockSlots, e.user, v);
    }
    match e.pair.expiry {
      case Keep =>
      case SetExpiry(m, g, grace) => SetEntryChangesOneRow(c.expirySlots, e.user, m, g, grace, v);
      case ClearExpiry => ClearEntryRemovesOneRow(c.expirySlots, e.user, v);
    }
  }

  /** A user with no staged entry sees no change from the whole callback: no
      other user's lockout or expiry row is ever displaced. */
  lemma {:induction false} CallbackLeavesOthers(c: Caches, es: seq<Entry>, clock: nat -> int, v: Name, t: int)
    requires UniqueUsers(c.lockSlots) && UniqueExpiry(c.expirySlots)
    requires forall i :: 0 <= i < |es| ==> clock(i) <= t && Occupied(es[i].user) && es[i].user != v
    ensures var c' := ApplyEntries(c, es, clock);
            && UniqueUsers(c'.lockSlots) && UniqueExpiry(c'.expirySlots)
            && LiveAt(c'.lockSlots, v, t) == LiveAt(c.lockSlots, v, t)
            && CachedRow(c'.expirySlots, v) == CachedRow(c.expirySlots, v)
  {
    if es != [] {
      var n := |es|;
      CallbackLeavesOthers(c, es[..n - 1], clock, v, t);
      EntryLeavesOthers(ApplyEntries(c, es[..n - 1], clock), es[n - 1], clock(n - 1), v, t);
    }
  }

  /** The caches show `p` for `u` at time `t`, or say that they overflowed. */
  ghost predicate Shows(c: Caches, u: Name, p: Pair, t: int) {
    && (match p.lock
        case None => true
        case Some(ClearLock) => LiveAt(c.lockSlots, u, t) == None
        case Some(SetLock(e)) => e > t ==> c.lockState == Overflow || LiveAt(c.lockSlots, u, t) == Some(e))
    && (match p.expiry
        case Keep => true
        case ClearExpiry => CachedRow(c.expirySlots, u) == None
        case SetExpiry(m, g, grace) =>
          || c.expiryState == Overflow
          || CachedRow(c.expirySlots, u) == Some(ExpirySlot(u, m, g, AtLeastZero(grace))))
  }

  lemma EntryShows(c: Caches, e: Entry, now: int, t: int)
    requires UniqueUsers(c.lockSlots) && UniqueExpiry(c.expirySlots) && now <= t && Occupied(e.user)
    ensures Shows(ApplyEntry(c, e, now), e.user, e.pair, t)
  {
    match e.pair.lock {
      case None =>
      case Some(SetLock(expiresAt)) => SetChangesOneLockout(c.lockSlots, e.user, expiresAt, now, e.user, t);
      case Some(ClearLock) => ClearRemovesOneLockout(c.lockSlots, e.user, e.user);
    }
    match e.pair.expiry {
      case Keep =>
      case SetExpiry(m, g, grace) => SetEntryChangesOneRow(c.expirySlots, e.user, m, g, grace, e.user);
      case ClearExpiry => ClearEntryRemovesOneRow(c.expirySlots, e.user, e.user);
    }
  }

  /** Applying another user's entry keeps what is shown. */
  lemma ShowsPersists(c: Caches, e: Entry, now: int, u: Name, p: Pair, t: int)
    requires UniqueUsers(c.lockSlots) && UniqueExpiry(c.expirySlots) && now <= t && Occupied(e.user)
    requires u != e.user && Shows(c, u, p, t)
    ensures Shows(ApplyEntry(c, e, now), u, p, t)
  {
    EntryLeavesOthers(c, e, now, u, t);
  }

  lemma {:induction false} CallbackShowsEntry(c: Caches, es: seq<Entry>, clock: nat -> int, i: nat, t: int)
    requires UniqueUsers(c.lockSlots) && UniqueExpiry(c.expirySlots) && DistinctUsers(es) && i < |es|
    requires forall j :: 0 <= j < |es| ==> clock(j) <= t && Occupied(es[j].user)
    ensures Shows(ApplyEntries(c, es, clock), es[i].user, es[i].pair, t)
  {
    var n := |es|;
    var init, last := es[..n - 1], es[n - 1];
    CallbackKeepsUnique(c, init, clock);
    var c1 := ApplyEntries(c, init, clock);
    if i == n - 1 {
      EntryShows(c1, last, clock(n - 1), t);
    } else {
      CallbackShowsEntry(c, init, clock, i, t);
      ShowsPersists(c1, last, clock(n - 1), es[i].user, es[i].pair, t);
    }
  }

  lemma {:induction false} CallbackKeepsUnique(c: Caches, es: seq<Entry>, clock: nat -> int)
    requires UniqueUsers(c.lockSlots) && UniqueExpiry(c.expirySlots)
    requires forall j :: 0 <= j < |es| ==> Occupied(es[j].user)
    ensures var c' := ApplyEntries(c, es, clock);
            UniqueUsers(c'.lockSlots) && UniqueExpiry(c'.expirySlots)
  {
    if es != [] {
      var n := |es|;
      CallbackKeepsUnique(c, es[..n - 1], clock);
      EntryLeavesOthers(ApplyEntries(c, es[..n - 1], clock), es[n - 1], clock(n - 1), NoName(), clock(n - 1));
    }
  }

  /** End to end: for every well-nested run of stage calls and savepoints, once
      the callback has run each user's caches show the pair of that user's last
      stage call that no rollback discarded. */
  lemma {:induction false} CommitShowsLastSurvivor(subid: nat, ops: seq<StageOp>, s: Staging, c: Caches,
                                                   clock: nat -> int, u: Name, t: int)
    requires Performs(Begin(subid), ops, s) && |s.levels| == 1
    requires UniqueUsers(c.lockSlots) && UniqueExpiry(c.expirySlots)
    requires forall j :: 0 <= j < |s.entries| ==> clock(j) <= t && Occupied(s.entries[j].user)
    requires LastOf(Survivors(s.levels), u).Some?
    ensures Shows(ApplyEntries(c, s.entries, clock), u, LastOf(Survivors(s.levels), u).value, t)
  {
    CommitAppliesLastSurvivor(subid, ops, s, u);
    var i := ResolvedIndex(s.entries, u);
    CallbackShowsEntry(c, s.entries, clock, i, t);
  }

  lemma {:induction false} ResolvedIndex(es: seq<Entry>, u: Name) returns (i: nat)
    requires Resolved(es, u).Some?
    ensures i < |es| && es[i].user == u && es[i].pair == Resolved(es, u).value
  {
    if es[|es| - 1].user == u {
      i := |es| - 1;
    } else {
      i := ResolvedIndex(es[..|es| - 1], u);
    }
  }
}
