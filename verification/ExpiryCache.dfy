/** The fixed-slot shared password-expiry cache and the atomic consumption of a
    grace login.
 */
module ExpiryCache {
  import opened AuthTypes
  import opened LockCache

  const EXPIRY_CACHE_SIZE: nat := 2048

  /** One cached row; `generation` is the row's `last_changed`. */
  datatype ExpirySlot = ExpirySlot(user: Name, mustChangeBy: int, generation: int, grace: int)

  function FreeExpirySlot(): ExpirySlot {
    ExpirySlot(NoName(), 0, 0, 0)
  }

  datatype ExpiryAnswer = CacheUnavailable | NoRow | NotExpired | ExpiredWithGrace | ExpiredNoGrace

  datatype GraceOutcome = Consumed | NotNeeded | NoGrace | Unavailable

  // ---------------------------------------------------------------------
  // Slot-level operations
  // ---------------------------------------------------------------------

  predicate HoldsExpiry(s: ExpirySlot, user: Name) {
    Occupied(s.user) && s.user == user
  }

  /** First slot of `user` at or after `from`, or -1. */
  function FindExpiry(slots: seq<ExpirySlot>, user: Name, from: nat): (i: int)
    requires from <= |slots|
    ensures i == -1 || (from <= i < |slots| && HoldsExpiry(slots[i], user))
    ensures forall j :: from <= j < (if i == -1 then |slots| else i) ==> !HoldsExpiry(slots[j], user)
    decreases |slots| - from
  {
    if from == |slots| then -1
    else if HoldsExpiry(slots[from], user) then from
    else FindExpiry(slots, user, from + 1)
  }

  /** First free slot at or after `from`, or -1. */
  function FindFree(slots: seq<ExpirySlot>, from: nat): (i: int)
    requires from <= |slots|
    ensures i == -1 || (from <= i < |slots| && !Occupied(slots[i].user))
    ensures forall j :: from <= j < (if i == -1 then |slots| else i) ==> Occupied(slots[j].user)
    decreases |slots| - from
  {
    if from == |slots| then -1
    else if !Occupied(slots[from].user) then from
    else FindFree(slots, from + 1)
  }

  function AtLeastZero(n: int): nat {
    if n < 0 then 0 else n
  }

  /** `expiry_cache::set_entry`. */
  function SetEntrySlots(slots: seq<ExpirySlot>, user: Name, mustChangeBy: int, generation: int,
                         grace: int): (seq<ExpirySlot>, CacheOpStatus)
  {
    var s := ExpirySlot(user, mustChangeBy, generation, AtLeastZero(grace));
    if !Occupied(user) then (slots, Overflowed)
    else if FindExpiry(slots, user, 0) >= 0 then (slots[FindExpiry(slots, user, 0) := s], Applied)
    else if FindFree(slots, 0) >= 0 then (slots[FindFree(slots, 0) := s], Applied)
    else (slots, Overflowed)
  }

  /** `expiry_cache::clear_entry`. */
  function ClearEntrySlots(slots: seq<ExpirySlot>, user: Name): seq<ExpirySlot> {
    var i := FindExpiry(slots, user, 0);
    if i >= 0 then slots[i := FreeExpirySlot()] else slots
  }

  /** The entries hydration installs among the first `n` prepared. */
  function InstalledExpiry(prepared: seq<ExpirySlot>, n: nat): (r: seq<ExpirySlot>)
    requires n <= |prepared|
    ensures |r| <= EXPIRY_CACHE_SIZE && |r| <= n
    ensures forall s :: s in r ==> s in prepared[..n] && Occupied(s.user)
  {
    if n == 0 then []
    else
      var before := InstalledExpiry(prepared, n - 1);
      if |before| < EXPIRY_CACHE_SIZE && Occupied(prepared[n - 1].user)
      then before + [prepared[n - 1]] else before
  }

  function FreeExpirySlots(n: nat): seq<ExpirySlot> {
    seq(n, _ => FreeExpirySlot())
  }

  /** `expiry_cache::apply_hydrated`: the whole cache is replaced. */
  function HydratedExpiry(prepared: seq<ExpirySlot>): (r: seq<ExpirySlot>)
    ensures |r| == EXPIRY_CACHE_SIZE
  {
    var entries := InstalledExpiry(prepared, |prepared|);
    entries + FreeExpirySlots(EXPIRY_CACHE_SIZE - |entries|)
  }

  function Classify(s: ExpirySlot, now: int): ExpiryAnswer {
    if s.mustChangeBy > now then NotExpired
    else if s.grace > 0 then ExpiredWithGrace
    else ExpiredNoGrace
  }

  /** `lookup`. */
  function Lookup(slots: seq<ExpirySlot>, state: CacheState, user: Name, now: int): ExpiryAnswer {
    var i := FindExpiry(slots, user, 0);
    if state != Ready then CacheUnavailable else if i < 0 then NoRow else Classify(slots[i], now)
  }

  /** What `try_consume_grace` does once it holds the lock: the grace login goes
      on to be queued exactly when the locked re-check still wants it. */
  predicate WantsGrace(slots: seq<ExpirySlot>, state: CacheState, user: Name, now: int) {
    Lookup(slots, state, user, now) == ExpiredWithGrace
  }

  function UnqueuedOutcome(slots: seq<ExpirySlot>, state: CacheState, user: Name, now: int): GraceOutcome {
    match Lookup(slots, state, user, now)
    case CacheUnavailable => Unavailable
    case NoRow => NotNeeded
    case NotExpired => NotNeeded
    case ExpiredNoGrace => NoGrace
    case ExpiredWithGrace => Unavailable
  }

  function TakeGrace(slots: seq<ExpirySlot>, user: Name): seq<ExpirySlot> {
    var i := FindExpiry(slots, user, 0);
    if i >= 0 then slots[i := slots[i].(grace := slots[i].grace - 1)] else slots
  }

  // ---------------------------------------------------------------------
  // What a login can observe
  // ---------------------------------------------------------------------

  /** What an answer means: an unusable cache has none to give; a password without
      a row does not expire; and one with a row is expired from `mustChangeBy` on,
      with grace as long as some is left. */
  ghost predicate Tells(slots: seq<ExpirySlot>, state: CacheState, user: Name, now: int, answer: ExpiryAnswer) {
    && (answer == CacheUnavailable <==> state != Ready)
    && (state == Ready ==>
          && (answer == NoRow <==> CachedRow(slots, user).None?)
          && (CachedRow(slots, user).Some? ==>
                var row := CachedRow(slots, user).value;
                && (answer == NotExpired <==> now < row.mustChangeBy)
                && (answer == ExpiredWithGrace <==> row.mustChangeBy <= now && row.grace > 0)
                && (answer == ExpiredNoGrace <==> row.mustChangeBy <= now && row.grace <= 0)))
  }

  lemma LookupTells(slots: seq<ExpirySlot>, state: CacheState, user: Name, now: int)
    ensures Tells(slots, state, user, now, Lookup(slots, state, user, now))
  {
  }

  ghost predicate UniqueExpiry(slots: seq<ExpirySlot>) {
    forall i, j :: 0 <= i < j < |slots| && Occupied(slots[i].user) ==> slots[i].user != slots[j].user
  }

  function CachedRow(slots: seq<ExpirySlot>, user: Name): Option<ExpirySlot> {
    var i := FindExpiry(slots, user, 0);
    if i >= 0 then Some(slots[i]) else None
  }

  lemma CachedRowAt(slots: seq<ExpirySlot>, user: Name, i: nat)
    requires UniqueExpiry(slots) && i < |slots| && HoldsExpiry(slots[i], user)
    ensures FindExpiry(slots, user, 0) == i
  {
  }

  lemma UpdateKeepsUniqueExpiry(slots: seq<ExpirySlot>, i: nat, s: ExpirySlot)
    requires UniqueExpiry(slots) && i < |slots|
    requires Occupied(s.user) ==> forall j :: 0 <= j < |slots| && j != i ==> slots[j].user != s.user
    ensures UniqueExpiry(slots[i := s])
  {
  }

  /** Replacing one slot changes the rows of its old and new user only. */
  lemma UpdateCachedRow(slots: seq<ExpirySlot>, i: nat, s: ExpirySlot, v: Name)
    requires UniqueExpiry(slots) && i < |slots| && UniqueExpiry(slots[i := s])
    ensures CachedRow(slots[i := s], v) ==
              if HoldsExpiry(s, v) then Some(s)
              else if HoldsExpiry(slots[i], v) then None
              else CachedRow(slots, v)
  {
    var r := slots[i := s];
    if HoldsExpiry(s, v) {
      CachedRowAt(r, v, i);
    } else {
      var k := FindExpiry(slots, v, 0);
      if HoldsExpiry(slots[i], v) {
        CachedRowAt(slots, v, i);
        assert forall j :: 0 <= j < |r| ==> !HoldsExpiry(r[j], v);
      } else if k >= 0 {
        assert HoldsExpiry(r[k], v);
        CachedRowAt(r, v, k);
      } else {
        assert forall j :: 0 <= j < |r| ==> !HoldsExpiry(r[j], v);
      }
    }
  }

  /** `set_entry` changes this user's row and no other, evicts nobody, and
      refuses without a change exactly when a new user finds no free slot. */
  lemma SetEntryChangesOneRow(slots: seq<ExpirySlot>, user: Name, mustChangeBy: int,
                              generation: int, grace: int, v: Name)
    requires UniqueExpiry(slots) && Occupied(user)
    ensures var (slots', status) := SetEntrySlots(slots, user, mustChangeBy, generation, grace);
            && |slots'| == |slots| && UniqueExpiry(slots')
            && (status == Overflowed ==> slots' == slots)
            && (status == Overflowed <==>
                  forall i :: 0 <= i < |slots| ==> Occupied(slots[i].user) && slots[i].user != user)
            && (status == Applied ==>
                  CachedRow(slots', v) ==
                    if v == user
                    then Some(ExpirySlot(user, mustChangeBy, generation, AtLeastZero(grace)))
                    else CachedRow(slots, v))
  {
    var s := ExpirySlot(user, mustChangeBy, generation, AtLeastZero(grace));
    var i, j := FindExpiry(slots, user, 0), FindFree(slots, 0);
    if i >= 0 {
      UpdateKeepsUniqueExpiry(slots, i, s);
      UpdateCachedRow(slots, i, s, v);
    } else if j >= 0 {
      UpdateKeepsUniqueExpiry(slots, j, s);
      UpdateCachedRow(slots, j, s, v);
    }
  }

  lemma ClearEntryRemovesOneRow(slots: seq<ExpirySlot>, user: Name, v: Name)
    requires UniqueExpiry(slots)
    ensures var slots' := ClearEntrySlots(slots, user);
            && |slots'| == |slots| && UniqueExpiry(slots')
            && CachedRow(slots', v) == if v == user then None else CachedRow(slots, v)
  {
    var i := FindExpiry(slots, user, 0);
    if i >= 0 {
      UpdateKeepsUniqueExpiry(slots, i, FreeExpirySlot());
      UpdateCachedRow(slots, i, FreeExpirySlot(), v);
    }
  }

  lemma TakeGraceChangesOneRow(slots: seq<ExpirySlot>, user: Name, v: Name)
    requires UniqueExpiry(slots) && CachedRow(slots, user).Some?
    ensures var slots' := TakeGrace(slots, user);
            var row := CachedRow(slots, user).value;
            && |slots'| == |slots| && UniqueExpiry(slots')
            && CachedRow(slots', v) == if v == user then Some(row.(grace := row.grace - 1))
                                       else CachedRow(slots, v)
  {
    var i := FindExpiry(slots, user, 0);
    var s := slots[i].(grace := slots[i].grace - 1);
    UpdateKeepsUniqueExpiry(slots, i, s);
    UpdateCachedRow(slots, i, s, v);
  }

  ghost predicate DistinctRows(prepared: seq<ExpirySlot>) {
    forall i, j :: 0 <= i < j < |prepared| ==> prepared[i].user != prepared[j].user
  }

  lemma {:induction false} InstalledExpiryIsPrefix(prepared: seq<ExpirySlot>, n: nat)
    requires n <= |prepared| && n <= EXPIRY_CACHE_SIZE
    requires forall i :: 0 <= i < |prepared| ==> Occupied(prepared[i].user)
    ensures InstalledExpiry(prepared, n) == prepared[..n]
  {
    if n > 0 {
      InstalledExpiryIsPrefix(prepared, n - 1);
    }
  }

  /** Hydrating from a complete snapshot installs exactly its rows. */
  lemma HydrationInstallsRows(prepared: seq<ExpirySlot>, v: Name)
    requires |prepared| <= EXPIRY_CACHE_SIZE && DistinctRows(prepared)
    requires forall i :: 0 <= i < |prepared| ==> Occupied(prepared[i].user)
    ensures UniqueExpiry(HydratedExpiry(prepared))
    ensures forall i :: 0 <= i < |prepared| && prepared[i].user == v ==>
              CachedRow(HydratedExpiry(prepared), v) == Some(prepared[i])
    ensures (forall i :: 0 <= i < |prepared| ==> prepared[i].user != v) ==>
              CachedRow(HydratedExpiry(prepared), v) == None
  {
    InstalledExpiryIsPrefix(prepared, |prepared|);
    var slots := HydratedExpiry(prepared);
    assert forall i :: 0 <= i < |slots| ==> slots[i] == if i < |prepared| then prepared[i] else FreeExpirySlot();
    forall i | 0 <= i < |prepared| && prepared[i].user == v
      ensures CachedRow(slots, v) == Some(prepared[i])
    {
      CachedRowAt(slots, v, i);
    }
  }

  // ---------------------------------------------------------------------
  // Implementation
  // ---------------------------------------------------------------------

  class SharedExpiryCache {
    const entries: array<ExpirySlot>
    var state: int
    var hydrationRows: int
    var hydrationOverflow: int

    ghost predicate Valid()
      reads this
    {
      entries.Length == EXPIRY_CACHE_SIZE
    }

    constructor ()
      ensures Valid() && fresh(entries)
      ensures entries[..] == FreeExpirySlots(EXPIRY_CACHE_SIZE)
      ensures CacheStateFromRaw(state) == NotReady
    {
      entries := new ExpirySlot[EXPIRY_CACHE_SIZE](_ => FreeExpirySlot());
      state := RawCacheState(NotReady);
      hydrationRows, hydrationOverflow := 0, 0;
    }

    /** The search loop every operation starts with. */
    method Find(user: Name) returns (i: int)
      requires Valid()
      ensures i == FindExpiry(entries[..], user, 0)
    {
      ghost var slots := entries[..];
      var k := 0;
      while k < EXPIRY_CACHE_SIZE
        invariant 0 <= k <= EXPIRY_CACHE_SIZE
        invariant FindExpiry(slots, user, 0) == FindExpiry(slots, user, k)
      {
        if Occupied(entries[k].user) && entries[k].user == user {
          return k;
        }
        k := k + 1;
      }
      return -1;
    }

    method Answer(user: Name, now: int) returns (r: ExpiryAnswer)
      requires Valid()
      ensures r == Lookup(entries[..], CacheStateFromRaw(state), user, now)
      ensures Tells(entries[..], CacheStateFromRaw(state), user, now, r)
    {
      if CacheStateFromRaw(state) != Ready {
        return CacheUnavailable;
      }
      var i := Find(user);
      return if i < 0 then NoRow else Classify(entries[i], now);
    }

    /** Queue first, decrement only if the event became durable. `durable` is
        what the enqueue reports if it is reached; `queued` is the generation
        the event carries. */
    method TryConsumeGrace(user: Name, now: int, durable: bool)
        returns (outcome: GraceOutcome, queued: Option<int>)
      requires Valid()
      modifies entries
      ensures var slots, st := old(entries[..]), CacheStateFromRaw(state);
              if WantsGrace(slots, st, user, now)
              then && queued == Some(CachedRow(slots, user).value.generation)
                   && (outcome == Consumed <==> durable) && (outcome == Unavailable <==> !durable)
                   && entries[..] == if durable then TakeGrace(slots, user) else slots
              else && queued == None && entries[..] == slots
                   && outcome == UnqueuedOutcome(slots, st, user, now)
      ensures var row := CachedRow(old(entries[..]), user);
              if CacheStateFromRaw(state) != Ready then outcome == Unavailable
              else if row.None? || now < row.value.mustChangeBy then outcome == NotNeeded
              else if row.value.grace <= 0 then outcome == NoGrace
              else outcome == if durable then Consumed else Unavailable
    {
      queued := None;
      if CacheStateFromRaw(state) != Ready {
        return Unavailable, None;
      }
      var idx := Find(user);
      if idx < 0 {
        return NotNeeded, None;
      }
      var answer := Classify(entries[idx], now);
      match answer {
        case NotExpired => return NotNeeded, None;
        case ExpiredNoGrace => return NoGrace, None;
        case _ =>
      }
      queued := Some(entries[idx].generation);
      if !durable {
        return Unavailable, queued;
      }
      entries[idx] := entries[idx].(grace := entries[idx].grace - 1);
      outcome := Consumed;
    }

    method SetEntry(user: Name, mustChangeBy: int, generation: int, grace: int)
        returns (status: CacheOpStatus)
      requires Valid()
      modifies this`state, entries
      ensures (entries[..], status) == SetEntrySlots(old(entries[..]), user, mustChangeBy, generation, grace)
      ensures CacheStateFromRaw(state)
           == if status == Overflowed && Occupied(user) then Overflow else CacheStateFromRaw(old(state))
    {
      if !Occupied(user) {
        return Overflowed;
      }
      ghost var slots := entries[..];
      var s := ExpirySlot(user, mustChangeBy, generation, AtLeastZero(grace));
      var i := Find(user);
      if i >= 0 {
        entries[i] := s;
        return Applied;
      }
      var k := 0;
      while k < EXPIRY_CACHE_SIZE && Occupied(entries[k].user)
        invariant 0 <= k <= EXPIRY_CACHE_SIZE
        invariant FindFree(slots, 0) == FindFree(slots, k)
      {
        k := k + 1;
      }
      if k < EXPIRY_CACHE_SIZE {
        entries[k] := s;
        return Applied;
      }
      state := RawCacheState(Overflow);
      return Overflowed;
    }

    method ClearEntry(user: Name)
      requires Valid()
      modifies entries
      ensures entries[..] == ClearEntrySlots(old(entries[..]), user)
    {
      var i := Find(user);
      if i >= 0 {
        entries[i] := FreeExpirySlot();
      }
    }

    /** Frees every slot. */
    method Wipe()
      requires Valid()
      modifies entries
      ensures forall j :: 0 <= j < EXPIRY_CACHE_SIZE ==> entries[j] == FreeExpirySlot()
    {
      for i := 0 to EXPIRY_CACHE_SIZE
        invariant forall j :: 0 <= j < i ==> entries[j] == FreeExpirySlot()
      {
        entries[i] := FreeExpirySlot();
      }
    }

    /** The install loop, over wiped slots. */
    method Install(prepared: seq<ExpirySlot>) returns (slot: nat)
      requires Valid() && forall j :: 0 <= j < EXPIRY_CACHE_SIZE ==> entries[j] == FreeExpirySlot()
      modifies entries
      ensures slot <= EXPIRY_CACHE_SIZE && entries[..slot] == InstalledExpiry(prepared, |prepared|)
      ensures forall j :: slot <= j < EXPIRY_CACHE_SIZE ==> entries[j] == FreeExpirySlot()
    {
      slot := 0;
      var n := 0;
      while n < |prepared| && slot < EXPIRY_CACHE_SIZE
        invariant 0 <= n <= |prepared|
        invariant slot == |InstalledExpiry(prepared, n)|
        invariant entries[..slot] == InstalledExpiry(prepared, n)
        invariant forall j :: slot <= j < EXPIRY_CACHE_SIZE ==> entries[j] == FreeExpirySlot()
      {
        if Occupied(prepared[n].user) {
          ghost var kept := entries[..slot];
          entries[slot] := prepared[n];
          slot := slot + 1;
          assert entries[..slot] == kept + [prepared[n]];
        }
        n := n + 1;
      }
      InstalledExpiryStops(prepared, n);
    }

    method ApplyHydrated(prepared: seq<ExpirySlot>, rows: int, overflow: int, newState: CacheState)
        returns (loaded: int)
      requires Valid()
      modifies this, entries
      ensures entries[..] == HydratedExpiry(prepared)
      ensures loaded == |InstalledExpiry(prepared, |prepared|)|
      ensures CacheStateFromRaw(state) == newState
      ensures hydrationRows == rows && hydrationOverflow == overflow
    {
      Wipe();
      var slot := Install(prepared);
      loaded := slot;
      hydrationRows, hydrationOverflow := rows, overflow;
      state := RawCacheState(newState);
      assert entries[..] == entries[..slot] + entries[slot..];
    }

    /** The second half of `hydrate_expiry_from_db`: rows the snapshot left out
        decide between Ready and Overflow. */
    method Hydrate(prepared: seq<ExpirySlot>, rows: int) returns (overflow: int, loaded: int)
      requires Valid()
      modifies this, entries
      ensures entries[..] == HydratedExpiry(prepared)
      ensures CacheStateFromRaw(state) == if rows <= |prepared| then Ready else Overflow
      ensures overflow == hydrationOverflow && (overflow > 0 <==> rows > |prepared|) && overflow >= 0
      ensures rows > |prepared| ==> overflow == rows - |prepared|
    {
      overflow := rows - |prepared|;
      if overflow < 0 {
        overflow := 0;
      }
      var newState := if overflow == 0 then Ready else Overflow;
      loaded := ApplyHydrated(prepared, rows, overflow, newState);
    }
  }

  lemma {:induction false} InstalledExpiryStops(prepared: seq<ExpirySlot>, n: nat)
    requires n <= |prepared|
    requires n < |prepared| ==> |InstalledExpiry(prepared, n)| == EXPIRY_CACHE_SIZE
    ensures InstalledExpiry(prepared, |prepared|) == InstalledExpiry(prepared, n)
    decreases |prepared| - n
  {
    if n < |prepared| {
      InstalledExpiryStops(prepared, n + 1);
    }
  }
}
