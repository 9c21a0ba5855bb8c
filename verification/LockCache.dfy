/** The fixed-slot shared lock cache. Slot-level functions describe exactly what
    the loops do to the array; the lemmas say what that means for the lockouts
    that are live at a given time, which is all the login hook can observe.
 */
module LockCache {
  import opened AuthTypes

  const LOCK_CACHE_SIZE: nat := 2048
  const MICROS_PER_SEC: int := 1_000_000

  datatype CacheState = NotReady | Ready | Overflow | WorkerFailed

  function CacheStateFromRaw(raw: int): CacheState {
    if raw == 1 then Ready else if raw == 2 then Overflow else if raw == 3 then WorkerFailed else NotReady
  }

  function RawCacheState(s: CacheState): int {
    match s
    case NotReady => 0
    case Ready => 1
    case Overflow => 2
    case WorkerFailed => 3
  }

  datatype CacheOpStatus = Applied | Overflowed

  datatype Slot = Slot(user: Name, expiresAt: int)

  function FreeSlot(): Slot {
    Slot(NoName(), 0)
  }

  // ---------------------------------------------------------------------
  // Slot-level operations
  // ---------------------------------------------------------------------

  predicate Holds(s: Slot, user: Name) {
    Occupied(s.user) && s.user == user
  }

  predicate Reusable(s: Slot, now: int) {
    !Occupied(s.user) || s.expiresAt <= now
  }

  /** First slot of `user` at or after `from`, or -1. */
  function FindUser(slots: seq<Slot>, user: Name, from: nat): (i: int)
    requires from <= |slots|
    ensures i == -1 || (from <= i < |slots| && Holds(slots[i], user))
    ensures forall j :: from <= j < (if i == -1 then |slots| else i) ==> !Holds(slots[j], user)
    decreases |slots| - from
  {
    if from == |slots| then -1
    else if Holds(slots[from], user) then from
    else FindUser(slots, user, from + 1)
  }

  /** First free or expired slot at or after `from`, or -1. */
  function FindReusable(slots: seq<Slot>, now: int, from: nat): (i: int)
    requires from <= |slots|
    ensures i == -1 || (from <= i < |slots| && Reusable(slots[i], now))
    ensures forall j :: from <= j < (if i == -1 then |slots| else i) ==> !Reusable(slots[j], now)
    decreases |slots| - from
  {
    if from == |slots| then -1
    else if Reusable(slots[from], now) then from
    else FindReusable(slots, now, from + 1)
  }

  /** `lock_cache::set` at clock reading `now`. */
  function SetSlots(slots: seq<Slot>, user: Name, expiresAt: int, now: int): (seq<Slot>, CacheOpStatus) {
    var i, j := FindUser(slots, user, 0), FindReusable(slots, now, 0);
    if expiresAt <= now || !Occupied(user) then (slots, Applied)
    else if i >= 0 then (slots[i := Slot(user, expiresAt)], Applied)
    else if j >= 0 then (slots[j := Slot(user, expiresAt)], Applied)
    else (slots, Overflowed)
  }

  /** `lock_cache::clear`. */
  function ClearSlots(slots: seq<Slot>, user: Name): seq<Slot> {
    var i := FindUser(slots, user, 0);
    if i >= 0 then slots[i := FreeSlot()] else slots
  }

  predicate Installable(p: Slot, now: int) {
    Occupied(p.user) && p.expiresAt > now
  }

  /** The entries hydration installs, in order, among the first `n` prepared. */
  function Installed(prepared: seq<Slot>, n: nat, now: int): (r: seq<Slot>)
    requires n <= |prepared|
    ensures |r| <= LOCK_CACHE_SIZE && |r| <= n
    ensures forall s :: s in r ==> s in prepared[..n] && Installable(s, now)
  {
    if n == 0 then []
    else
      var before := Installed(prepared, n - 1, now);
      if |before| < LOCK_CACHE_SIZE && Installable(prepared[n - 1], now)
      then before + [prepared[n - 1]] else before
  }

  function FreeSlots(n: nat): seq<Slot> {
    seq(n, _ => FreeSlot())
  }

  /** `apply_hydrated_entries`: the whole cache is replaced. */
  function HydratedSlots(prepared: seq<Slot>, now: int): (r: seq<Slot>)
    ensures |r| == LOCK_CACHE_SIZE
  {
    var entries := Installed(prepared, |prepared|, now);
    entries + FreeSlots(LOCK_CACHE_SIZE - |entries|)
  }

  // ---------------------------------------------------------------------
  // What a login can observe
  // ---------------------------------------------------------------------

  ghost predicate UniqueUsers(slots: seq<Slot>) {
    forall i, j :: 0 <= i < j < |slots| && Occupied(slots[i].user) ==> slots[i].user != slots[j].user
  }

  /** The expiry stored for `user`, expired or not. */
  function Cached(slots: seq<Slot>, user: Name): Option<int> {
    var i := FindUser(slots, user, 0);
    if i >= 0 then Some(slots[i].expiresAt) else None
  }

  function LiveOnly(expiry: Option<int>, t: int): Option<int> {
    if expiry.Some? && expiry.value > t then expiry else None
  }

  /** The lockout the cache reports for `user` at time `t`. */
  function LiveAt(slots: seq<Slot>, user: Name, t: int): Option<int> {
    LiveOnly(Cached(slots, user), t)
  }

  lemma CachedAt(slots: seq<Slot>, user: Name, i: nat)
    requires UniqueUsers(slots) && i < |slots| && Holds(slots[i], user)
    ensures FindUser(slots, user, 0) == i
  {
  }

  lemma UpdateKeepsUnique(slots: seq<Slot>, i: nat, s: Slot)
    requires UniqueUsers(slots) && i < |slots|
    requires Occupied(s.user) ==> forall j :: 0 <= j < |slots| && j != i ==> slots[j].user != s.user
    ensures UniqueUsers(slots[i := s])
  {
  }

  /** Replacing one slot changes what is cached for its old and new user only. */
  lemma UpdateCached(slots: seq<Slot>, i: nat, s: Slot, v: Name)
    requires UniqueUsers(slots) && i < |slots| && UniqueUsers(slots[i := s])
    ensures Cached(slots[i := s], v) ==
              if Holds(s, v) then Some(s.expiresAt)
              else if Holds(slots[i], v) then None
              else Cached(slots, v)
  {
    var r := slots[i := s];
    if Holds(s, v) {
      CachedAt(r, v, i);
    } else {
      var k := FindUser(slots, v, 0);
      if Holds(slots[i], v) {
        CachedAt(slots, v, i);
        assert forall j :: 0 <= j < |r| ==> !Holds(r[j], v);
      } else if k >= 0 {
        assert Holds(r[k], v);
        CachedAt(r, v, k);
      } else {
        assert forall j :: 0 <= j < |r| ==> !Holds(r[j], v);
      }
    }
  }

  /** An applied `set` makes the live lockouts exactly what they were with this
      one user's replaced; only an expired entry can be displaced. A refused one
      changes nothing, and is refused exactly when the user has no slot and
      every slot holds an unexpired lockout. */
  lemma SetChangesOneLockout(slots: seq<Slot>, user: Name, expiresAt: int, now: int, v: Name, t: int)
    requires UniqueUsers(slots) && now <= t
    ensures var (slots', status) := SetSlots(slots, user, expiresAt, now);
            && |slots'| == |slots| && UniqueUsers(slots')
            && (status == Overflowed ==> slots' == slots)
            && (status == Overflowed <==>
                  && expiresAt > now && Occupied(user)
                  && (forall i :: 0 <= i < |slots| ==> !Holds(slots[i], user) && !Reusable(slots[i], now)))
            && (status == Applied && expiresAt > now && Occupied(user) && v == user ==>
                  Cached(slots', v) == Some(expiresAt))
            && (expiresAt <= now || !Occupied(user) ==> slots' == slots)
            && (v != user ==> LiveAt(slots', v, t) == LiveAt(slots, v, t))
  {
    var (slots', status) := SetSlots(slots, user, expiresAt, now);
    var i, j := FindUser(slots, user, 0), FindReusable(slots, now, 0);
    var s := Slot(user, expiresAt);
    if expiresAt > now && Occupied(user) {
      if i >= 0 {
        UpdateKeepsUnique(slots, i, s);
        UpdateCached(slots, i, s, v);
      } else if j >= 0 {
        UpdateKeepsUnique(slots, j, s);
        UpdateCached(slots, j, s, v);
        if Holds(slots[j], v) {
          CachedAt(slots, v, j);
        }
      }
    }
  }

  lemma ClearRemovesOneLockout(slots: seq<Slot>, user: Name, v: Name)
    requires UniqueUsers(slots)
    ensures var slots' := ClearSlots(slots, user);
            && |slots'| == |slots| && UniqueUsers(slots')
            && Cached(slots', v) == if v == user then None else Cached(slots, v)
  {
    var i := FindUser(slots, user, 0);
    if i >= 0 {
      UpdateKeepsUnique(slots, i, FreeSlot());
      UpdateCached(slots, i, FreeSlot(), v);
    }
  }

  ghost predicate DistinctPrepared(prepared: seq<Slot>) {
    forall i, j :: 0 <= i < j < |prepared| ==> prepared[i].user != prepared[j].user
  }

  lemma {:induction false} InstalledKeepsAll(prepared: seq<Slot>, n: nat, now: int)
    requires n <= |prepared| && n <= LOCK_CACHE_SIZE && DistinctPrepared(prepared)
    ensures UniqueUsers(Installed(prepared, n, now))
    ensures forall i :: 0 <= i < n && Installable(prepared[i], now) ==>
              prepared[i] in Installed(prepared, n, now)
  {
    if n > 0 {
      InstalledKeepsAll(prepared, n - 1, now);
      var r := Installed(prepared, n - 1, now);
      forall k | 0 <= k < |r| ensures r[k].user != prepared[n - 1].user {
        assert r[k] in prepared[..n - 1];
      }
      assert Installed(prepared, n, now) == if Installable(prepared[n - 1], now) then r + [prepared[n - 1]] else r;
    }
  }

  /** Hydrating from a complete snapshot: the cache then reports, from that time
      on, exactly the prepared lockouts. */
  lemma HydrationInstallsSnapshot(prepared: seq<Slot>, now: int, v: Name, t: int)
    requires |prepared| <= LOCK_CACHE_SIZE && DistinctPrepared(prepared) && now <= t
    requires forall i :: 0 <= i < |prepared| ==> Occupied(prepared[i].user)
    ensures UniqueUsers(HydratedSlots(prepared, now))
    ensures forall i :: 0 <= i < |prepared| && prepared[i].user == v ==>
              LiveAt(HydratedSlots(prepared, now), v, t) == LiveOnly(Some(prepared[i].expiresAt), t)
    ensures (forall i :: 0 <= i < |prepared| ==> prepared[i].user != v) ==>
              LiveAt(HydratedSlots(prepared, now), v, t) == None
  {
    InstalledKeepsAll(prepared, |prepared|, now);
    var entries, slots := Installed(prepared, |prepared|, now), HydratedSlots(prepared, now);
    assert prepared[..|prepared|] == prepared;
    var k := FindUser(slots, v, 0);
    if k >= 0 {
      assert slots[k] == entries[k] && entries[k] in prepared;
    }
    forall i | 0 <= i < |prepared| && prepared[i].user == v
      ensures LiveAt(slots, v, t) == LiveOnly(Some(prepared[i].expiresAt), t)
    {
      if Installable(prepared[i], now) {
        var m :| 0 <= m < |entries| && entries[m] == prepared[i];
        assert Holds(slots[m], v);
      }
    }
  }

  // ---------------------------------------------------------------------
  // Remaining seconds
  // ---------------------------------------------------------------------

  /** `remaining_seconds_ceil`. */
  function RemainingSecondsCeil(expiresAt: int, now: int): Option<int> {
    if expiresAt <= now then None
    else
      var delta := expiresAt - now;
      var whole := delta / MICROS_PER_SEC;
      var secs := if delta % MICROS_PER_SEC != 0 then whole + 1 else whole;
      Some(if secs < 1 then 1 else secs)
  }

  /** A lockout is reported exactly while its expiry is in the future, and then
      as the least whole number of seconds, at least one, that covers it. */
  lemma RemainingIsLeastCover(expiresAt: int, now: int)
    ensures RemainingSecondsCeil(expiresAt, now).Some? <==> expiresAt > now
    ensures expiresAt > now ==>
              var secs := RemainingSecondsCeil(expiresAt, now).value;
              && secs >= 1
              && secs * MICROS_PER_SEC >= expiresAt - now
              && (forall k :: k >= 1 && k * MICROS_PER_SEC >= expiresAt - now ==> secs <= k)
  {
    if expiresAt > now {
      var delta := expiresAt - now;
      var secs := RemainingSecondsCeil(expiresAt, now).value;
      assert delta == delta / MICROS_PER_SEC * MICROS_PER_SEC + delta % MICROS_PER_SEC;
      forall k | k >= 1 && k * MICROS_PER_SEC >= delta ensures secs <= k {
      }
    }
  }

  /** The 64-bit subtraction is exact for every representable expiry, including
      infinity, exactly when the clock reads at or after the 2000-01-01 epoch. */
  lemma RemainingNeverOverflows(now: int)
    requires IsI64(now)
    ensures now >= 0 <==> forall expiresAt :: now < expiresAt && IsI64(expiresAt) ==> IsI64(expiresAt - now)
  {
    if now < 0 {
      assert now < I64_MAX && IsI64(I64_MAX) && !IsI64(I64_MAX - now);
    }
  }

  // ---------------------------------------------------------------------
  // Implementation
  // ---------------------------------------------------------------------

  class SharedLockCache {
    const entries: array<Slot>
    var hydrationActiveTotal: int
    var hydrationLoaded: int
    var hydrationOverflow: int
    var state: int

    ghost predicate Valid()
      reads this
    {
      entries.Length == LOCK_CACHE_SIZE
    }

    constructor ()
      ensures Valid() && fresh(entries)
      ensures entries[..] == FreeSlots(LOCK_CACHE_SIZE)
      ensures CacheStateFromRaw(state) == NotReady
    {
      entries := new Slot[LOCK_CACHE_SIZE](_ => FreeSlot());
      hydrationActiveTotal, hydrationLoaded, hydrationOverflow := 0, 0, 0;
      state := RawCacheState(NotReady);
    }

    method Set(user: Name, expiresAt: int, now: int) returns (status: CacheOpStatus)
      requires Valid()
      modifies this`state, entries
      ensures (entries[..], status) == SetSlots(old(entries[..]), user, expiresAt, now)
      ensures CacheStateFromRaw(state)
           == if status == Overflowed then Overflow else CacheStateFromRaw(old(state))
    {
      if expiresAt <= now || !Occupied(user) {
        return Applied;
      }
      ghost var slots := entries[..];
      var i := 0;
      while i < LOCK_CACHE_SIZE && !Holds(entries[i], user)
        invariant 0 <= i <= LOCK_CACHE_SIZE
        invariant FindUser(slots, user, 0) == FindUser(slots, user, i)
      {
        i := i + 1;
      }
      if i < LOCK_CACHE_SIZE {
        entries[i] := entries[i].(expiresAt := expiresAt);
        return Applied;
      }
      i := 0;
      while i < LOCK_CACHE_SIZE && !Reusable(entries[i], now)
        invariant 0 <= i <= LOCK_CACHE_SIZE
        invariant FindReusable(slots, now, 0) == FindReusable(slots, now, i)
      {
        i := i + 1;
      }
      if i < LOCK_CACHE_SIZE {
        entries[i] := Slot(user, expiresAt);
        return Applied;
      }
      state := RawCacheState(Overflow);
      return Overflowed;
    }

    method Clear(user: Name)
      requires Valid()
      modifies entries
      ensures entries[..] == ClearSlots(old(entries[..]), user)
    {
      ghost var slots := entries[..];
      var i := 0;
      while i < LOCK_CACHE_SIZE && !Holds(entries[i], user)
        invariant 0 <= i <= LOCK_CACHE_SIZE
        invariant FindUser(slots, user, 0) == FindUser(slots, user, i)
      {
        i := i + 1;
      }
      if i < LOCK_CACHE_SIZE {
        entries[i] := FreeSlot();
      }
    }

    /** `remaining_seconds`: the hook's question, answered from the live lockout. */
    method RemainingSeconds(user: Name, now: int) returns (secs: Option<int>)
      requires Valid() && UniqueUsers(entries[..])
      ensures secs == match LiveAt(entries[..], user, now)
                      case None => None
                      case Some(e) => RemainingSecondsCeil(e, now)
    {
      ghost var slots := entries[..];
      for i := 0 to LOCK_CACHE_SIZE
        invariant forall j :: 0 <= j < i ==> !(Holds(slots[j], user) && slots[j].expiresAt > now)
      {
        if Occupied(entries[i].user) && entries[i].user == user && entries[i].expiresAt > now {
          CachedAt(slots, user, i);
          return RemainingSecondsCeil(entries[i].expiresAt, now);
        }
      }
      return None;
    }

    /** Frees every slot. */
    method Wipe()
      requires Valid()
      modifies entries
      ensures forall j :: 0 <= j < LOCK_CACHE_SIZE ==> entries[j] == FreeSlot()
    {
      for i := 0 to LOCK_CACHE_SIZE
        invariant forall j :: 0 <= j < i ==> entries[j] == FreeSlot()
      {
        entries[i] := FreeSlot();
      }
    }

    /** The install loop, over wiped slots. */
    method Install(prepared: seq<Slot>, now: int) returns (slot: nat)
      requires Valid() && forall j :: 0 <= j < LOCK_CACHE_SIZE ==> entries[j] == FreeSlot()
      modifies entries
      ensures slot <= LOCK_CACHE_SIZE && entries[..slot] == Installed(prepared, |prepared|, now)
      ensures forall j :: slot <= j < LOCK_CACHE_SIZE ==> entries[j] == FreeSlot()
    {
      slot := 0;
      var n := 0;
      while n < |prepared| && slot < LOCK_CACHE_SIZE
        invariant 0 <= n <= |prepared|
        invariant slot == |Installed(prepared, n, now)|
        invariant entries[..slot] == Installed(prepared, n, now)
        invariant forall j :: slot <= j < LOCK_CACHE_SIZE ==> entries[j] == FreeSlot()
      {
        if Occupied(prepared[n].user) && prepared[n].expiresAt > now {
          ghost var kept := entries[..slot];
          entries[slot] := prepared[n];
          slot := slot + 1;
          assert entries[..slot] == kept + [prepared[n]];
        }
        n := n + 1;
      }
      InstalledStops(prepared, n, now);
    }

    /** `apply_hydrated_entries`: replaces the entries, and publishes the new
        state in the same section. */
    method ApplyHydrated(prepared: seq<Slot>, activeTotal: int, overflow: int,
                         newState: CacheState, now: int) returns (loaded: int)
      requires Valid()
      modifies this, entries
      ensures entries[..] == HydratedSlots(prepared, now)
      ensures loaded == |Installed(prepared, |prepared|, now)|
      ensures CacheStateFromRaw(state) == newState
      ensures hydrationActiveTotal == activeTotal && hydrationLoaded == loaded
      ensures hydrationOverflow == overflow
    {
      Wipe();
      var slot := Install(prepared, now);
      loaded := slot;
      hydrationActiveTotal, hydrationLoaded, hydrationOverflow := activeTotal, loaded, overflow;
      state := RawCacheState(newState);
      assert entries[..] == entries[..slot] + entries[slot..];
    }

    /** The second half of `hydrate_from_db`: rows the snapshot left out decide
        between Ready and Overflow. */
    method Hydrate(prepared: seq<Slot>, activeTotal: int, now: int) returns (overflow: int, loaded: int)
      requires Valid()
      modifies this, entries
      ensures entries[..] == HydratedSlots(prepared, now)
      ensures CacheStateFromRaw(state) == if activeTotal <= |prepared| then Ready else Overflow
      ensures overflow == hydrationOverflow && (overflow > 0 <==> activeTotal > |prepared|) && overflow >= 0
      ensures activeTotal > |prepared| ==> overflow == activeTotal - |prepared|
    {
      overflow := activeTotal - |prepared|;
      if overflow < 0 {
        overflow := 0;
      }
      var newState := if overflow == 0 then Ready else Overflow;
      loaded := ApplyHydrated(prepared, activeTotal, overflow, newState, now);
    }
  }

  /** Once every slot is filled the rest of the prepared entries are skipped. */
  lemma {:induction false} InstalledStops(prepared: seq<Slot>, n: nat, now: int)
    requires n <= |prepared|
    requires n < |prepared| ==> |Installed(prepared, n, now)| == LOCK_CACHE_SIZE
    ensures Installed(prepared, |prepared|, now) == Installed(prepared, n, now)
    decreases |prepared| - n
  {
    if n < |prepared| {
      InstalledStops(prepared, n + 1, now);
    }
  }
}
