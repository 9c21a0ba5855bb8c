/** Grace logins, split between the expiry cache, the event log and the
    `password_expiry` table. The ledger identity

        cached + pending == table + slack

    holds for every user whose commit is not waiting for its callback, as long
    as transactions do not lose the expiry half of a staged pair. `slack` counts
    the pending events the cache has not paid for.
 */
module GraceLedger {
  import opened AuthTypes
  import opened LockCache
  import opened ExpiryCache
  import opened PendingOps
  import opened LoginTables
  import opened NameSets

  /** `allowance` is the grace granted so far under the generation of the current
      row: what the row was written with, and what an earlier row of the same
      generation had already spent. */
  datatype ExpirySide = ExpirySide(
    rows: map<Name, ExpiryRow>,
    allowance: map<Name, int>,
    slots: seq<ExpirySlot>,
    state: CacheState,
    inflight: map<Name, ExpiryDecision>,
    slack: map<Name, nat>)

  function SlackOf(ex: ExpirySide, u: Name): nat {
    if u in ex.slack then ex.slack[u] else 0
  }

  // ---------------------------------------------------------------------
  // Counting grace events
  // ---------------------------------------------------------------------

  predicate IsGrace(e: Event, u: Name, g: int) {
    e.kind == KIND_GRACE && e.user == u && e.generation == g
  }

  /** Grace events of one password generation. */
  function CountGrace(log: seq<Event>, u: Name, g: int): nat {
    if log == [] then 0
    else CountGrace(log[..|log| - 1], u, g) + if IsGrace(log[|log| - 1], u, g) then 1 else 0
  }

  lemma {:induction false} CountConcat(a: seq<Event>, b: seq<Event>, u: Name, g: int)
    ensures CountGrace(a + b, u, g) == CountGrace(a, u, g) + CountGrace(b, u, g)
  {
    if b == [] {
      assert a + b == a;
    } else {
      CountConcat(a, b[..|b| - 1], u, g);
      assert (a + b)[..|a + b| - 1] == a + b[..|b| - 1];
    }
  }

  lemma CountOne(e: Event, u: Name, g: int)
    ensures CountGrace([e], u, g) == if IsGrace(e, u, g) then 1 else 0
  {
    assert [e][..0] == [];
  }

  lemma {:induction false} CountNone(log: seq<Event>, u: Name, g: int)
    requires forall i :: 0 <= i < |log| ==> !IsGrace(log[i], u, g)
    ensures CountGrace(log, u, g) == 0
  {
    if log != [] {
      CountNone(log[..|log| - 1], u, g);
    }
  }

  /** The two parts of the log: applied, and pending. */
  function Used(log: seq<Event>, k: nat, u: Name, g: int): nat
    requires k <= |log|
  {
    CountGrace(log[..k], u, g)
  }

  function Pending(log: seq<Event>, k: nat, u: Name, g: int): nat
    requires k <= |log|
  {
    CountGrace(log[k..], u, g)
  }

  lemma UsedPlusPending(log: seq<Event>, k: nat, u: Name, g: int)
    requires k <= |log|
    ensures Used(log, k, u, g) + Pending(log, k, u, g) == CountGrace(log, u, g)
  {
    CountConcat(log[..k], log[k..], u, g);
    assert log[..k] + log[k..] == log;
  }

  lemma AppendCounts(log: seq<Event>, k: nat, e: Event, u: Name, g: int)
    requires k <= |log|
    ensures Used(log + [e], k, u, g) == Used(log, k, u, g)
    ensures Pending(log + [e], k, u, g) == Pending(log, k, u, g) + if IsGrace(e, u, g) then 1 else 0
  {
    assert (log + [e])[..k] == log[..k];
    assert (log + [e])[k..] == log[k..] + [e];
    CountConcat(log[k..], [e], u, g);
    CountOne(e, u, g);
  }

  lemma ApplyCounts(log: seq<Event>, k: nat, u: Name, g: int)
    requires k < |log|
    ensures var one := if IsGrace(log[k], u, g) then 1 else 0;
            && Used(log, k + 1, u, g) == Used(log, k, u, g) + one
            && Pending(log, k, u, g) == Pending(log, k + 1, u, g) + one
  {
    assert log[..k + 1] == log[..k] + [log[k]];
    assert log[k..] == [log[k]] + log[k + 1..];
    CountConcat(log[..k], [log[k]], u, g);
    CountConcat([log[k]], log[k + 1..], u, g);
    CountOne(log[k], u, g);
  }

  // ---------------------------------------------------------------------
  // Steps
  // ---------------------------------------------------------------------

  /** A login consumed a cached grace whose event became durable. */
  function TakeCachedGrace(ex: ExpirySide, u: Name): ExpirySide {
    ex.(slots := TakeGrace(ex.slots, u))
  }

  /** The event got into the log although the login was told otherwise. */
  function StrandGrace(ex: ExpirySide, u: Name): ExpirySide {
    ex.(slack := ex.slack[u := SlackOf(ex, u) + 1])
  }

  /** The worker commits a grace event against the table. */
  function PersistInTable(ex: ExpirySide, u: Name, generation: int): ExpirySide
    requires PersistGrace(RowOf(ex.rows, u), generation).Persisted?
  {
    ex.(rows := WithRow(ex.rows, u, PersistGrace(RowOf(ex.rows, u), generation).row))
  }

  /** Password changes of one transaction become durable. */
  function CommitExpiry(ex: ExpirySide, log: seq<Event>, k: nat, rows: map<Name, ExpiryRow>,
                        decisions: map<Name, ExpiryDecision>): ExpirySide
    requires k <= |log|
  {
    ex.(rows := rows, inflight := ex.inflight + decisions,
        allowance := ex.allowance
                     + (map u | u in decisions && decisions[u].SetExpiry?
                          :: decisions[u].grace + Used(log, k, u, decisions[u].generation)))
  }

  /** The callback applies one staged expiry decision; events of its generation
      that are still pending are not subtracted. */
  function ApplyExpiry(ex: ExpirySide, log: seq<Event>, k: nat, u: Name): ExpirySide
    requires k <= |log| && u in ex.inflight
  {
    match ex.inflight[u]
    case Keep => ex.(inflight := ex.inflight - {u})
    case ClearExpiry => ex.(slots := ClearEntrySlots(ex.slots, u), inflight := ex.inflight - {u})
    case SetExpiry(m, g, grace) =>
      var (slots, status) := SetEntrySlots(ex.slots, u, m, g, grace);
      ex.(slots := slots, state := if status == Overflowed && Occupied(u) then Overflow else ex.state,
          inflight := ex.inflight - {u}, slack := ex.slack[u := Pending(log, k, u, g)])
  }

  /** A crash loses the cache and the unfinished callbacks. */
  ghost function LoseExpiry(ex: ExpirySide, log: seq<Event>, k: nat): ExpirySide
    requires k <= |log|
  {
    ex.(slots := FreeExpirySlots(EXPIRY_CACHE_SIZE), state := NotReady, inflight := map[],
        slack := ex.slack
                 + (map u | u in ex.inflight && u in ex.rows
                      :: AtLeastZero(Pending(log, k, u, ex.rows[u].generation) - ex.rows[u].grace)))
  }

  /** What the bounded SELECT can return: distinct rows, as many as fit. */
  ghost predicate IsRowSnapshot(rows: map<Name, ExpiryRow>, prepared: seq<ExpirySlot>) {
    && DistinctRows(prepared)
    && |prepared| == (if |rows.Keys| < EXPIRY_CACHE_SIZE then |rows.Keys| else EXPIRY_CACHE_SIZE)
    && forall i :: 0 <= i < |prepared| ==>
         && prepared[i].user in rows
         && var row := rows[prepared[i].user];
            prepared[i] == ExpirySlot(prepared[i].user, row.mustChangeBy, row.generation,
                                      AtLeastZero(row.grace))
  }

  /** `hydrate_expiry_from_db`: the table's grace goes into the cache as it is;
      events still pending are not subtracted. */
  ghost function HydrateExpiry(ex: ExpirySide, prepared: seq<ExpirySlot>, log: seq<Event>, k: nat): ExpirySide
    requires k <= |log|
  {
    var overflow := |ex.rows.Keys| - |prepared|;
    ex.(slots := HydratedExpiry(prepared), state := if overflow > 0 then Overflow else Ready,
        slack := map u | u in ex.rows :: Pending(log, k, u, ex.rows[u].generation))
  }

  // ---------------------------------------------------------------------
  // Invariant
  // ---------------------------------------------------------------------

  /** Rows are internally consistent, and the grace missing from a row is
      exactly the grace events applied to it. */
  ghost predicate RowLedger(ex: ExpirySide, log: seq<Event>, k: nat, u: Name)
    requires k <= |log|
  {
    u in ex.rows ==>
      && Occupied(u) && ex.rows[u].grace >= 0
      && u in ex.allowance
      && ex.rows[u].grace + Used(log, k, u, ex.rows[u].generation) == ex.allowance[u]
  }

  /** Cache, log and table agree on `u` up to the slack. */
  ghost predicate Conserved(ex: ExpirySide, log: seq<Event>, k: nat, u: Name)
    requires k <= |log|
  {
    match CachedRow(ex.slots, u)
    case None => u !in ex.rows
    case Some(s) =>
      && u in ex.rows
      && s.generation == ex.rows[u].generation && s.mustChangeBy == ex.rows[u].mustChangeBy
      && s.grace >= 0
      && s.grace + Pending(log, k, u, s.generation) == ex.rows[u].grace + SlackOf(ex, u)
  }

  /** Conserved while the cache is trusted; in any case the table and the slack
      together can pay for every pending event. */
  ghost predicate Accounted(ex: ExpirySide, log: seq<Event>, k: nat, u: Name, trusted: bool)
    requires k <= |log|
  {
    && (trusted ==> Conserved(ex, log, k, u))
    && (u in ex.rows ==> Pending(log, k, u, ex.rows[u].generation) <= ex.rows[u].grace + SlackOf(ex, u))
  }

  /** An in-flight decision is true of the row. */
  ghost predicate AwaitsCallback(ex: ExpirySide, u: Name)
    requires u in ex.inflight
  {
    && Occupied(u)
    && match ex.inflight[u]
       case Keep => false
       case ClearExpiry => u !in ex.rows
       case SetExpiry(m, g, grace) =>
         grace >= 0 && RowOf(ex.rows, u) == Some(ExpiryRow(g, m, grace))
  }

  ghost predicate GraceInv(ex: ExpirySide, log: seq<Event>, k: nat, trusted: bool)
    requires k <= |log|
  {
    && |ex.slots| == EXPIRY_CACHE_SIZE && UniqueExpiry(ex.slots)
    && (forall u :: RowLedger(ex, log, k, u))
    && (forall u :: u in ex.inflight ==> AwaitsCallback(ex, u))
    && (forall u :: u !in ex.inflight ==> Accounted(ex, log, k, u, trusted))
  }

  // ---------------------------------------------------------------------
  // Preservation
  // ---------------------------------------------------------------------

  lemma OtherEventKeepsInv(ex: ExpirySide, log: seq<Event>, k: nat, e: Event, trusted: bool)
    requires k <= |log| && GraceInv(ex, log, k, trusted) && e.kind != KIND_GRACE
    ensures GraceInv(ex, log + [e], k, trusted)
  {
    var log' := log + [e];
    forall u ensures RowLedger(ex, log', k, u) {
      assert RowLedger(ex, log, k, u);
      if u in ex.rows {
        AppendCounts(log, k, e, u, ex.rows[u].generation);
      }
    }
    forall u | u in ex.inflight ensures AwaitsCallback(ex, u) {
      assert AwaitsCallback(ex, u);
    }
    forall u | u !in ex.inflight ensures Accounted(ex, log', k, u, trusted) {
      assert Accounted(ex, log, k, u, trusted);
      if u in ex.rows {
        AppendCounts(log, k, e, u, ex.rows[u].generation);
      }
    }
  }

  /** A grace event of `u` carries the generation the cache holds for `u`. */
  ghost predicate FromCache(ex: ExpirySide, e: Event) {
    && e.kind == KIND_GRACE && CachedRow(ex.slots, e.user).Some?
    && e.generation == CachedRow(ex.slots, e.user).value.generation
  }

  /** The part of the invariant an appended grace event could disturb outside
      its own user's cached row. */
  lemma GraceEventKeepsRest(ex: ExpirySide, log: seq<Event>, k: nat, e: Event)
    requires k <= |log| && GraceInv(ex, log, k, true) && FromCache(ex, e)
    ensures forall u :: RowLedger(ex, log + [e], k, u)
    ensures forall u :: u in ex.inflight ==> AwaitsCallback(ex, u)
  {
    var log' := log + [e];
    forall u ensures RowLedger(ex, log', k, u) {
      assert RowLedger(ex, log, k, u);
      if u in ex.rows {
        AppendCounts(log, k, e, u, ex.rows[u].generation);
      }
    }
    forall u | u in ex.inflight ensures AwaitsCallback(ex, u) {
      assert AwaitsCallback(ex, u);
    }
  }

  /** A durable grace login moves one unit from the cache to the log. */
  lemma GraceLoginKeepsInv(ex: ExpirySide, log: seq<Event>, k: nat, e: Event)
    requires k <= |log| && GraceInv(ex, log, k, true) && FromCache(ex, e)
    requires CachedRow(ex.slots, e.user).value.grace > 0
    ensures GraceInv(TakeCachedGrace(ex, e.user), log + [e], k, true)
  {
    var ex', log' := TakeCachedGrace(ex, e.user), log + [e];
    GraceEventKeepsRest(ex, log, k, e);
    TakeGraceChangesOneRow(ex.slots, e.user, e.user);
    forall u ensures RowLedger(ex', log', k, u) {
      assert RowLedger(ex, log', k, u);
    }
    forall u | u in ex'.inflight ensures AwaitsCallback(ex', u) {
      assert AwaitsCallback(ex, u);
      TakeGraceChangesOneRow(ex.slots, e.user, u);
    }
    forall u | u !in ex'.inflight ensures Accounted(ex', log', k, u, true) {
      assert Accounted(ex, log, k, u, true);
      TakeGraceChangesOneRow(ex.slots, e.user, u);
      if u in ex.rows {
        AppendCounts(log, k, e, u, ex.rows[u].generation);
      }
    }
  }

  /** An event left behind by a failed sync becomes slack. */
  lemma StrandedGraceKeepsInv(ex: ExpirySide, log: seq<Event>, k: nat, e: Event)
    requires k <= |log| && GraceInv(ex, log, k, true) && FromCache(ex, e)
    ensures GraceInv(StrandGrace(ex, e.user), log + [e], k, true)
  {
    var ex', log' := StrandGrace(ex, e.user), log + [e];
    GraceEventKeepsRest(ex, log, k, e);
    forall u ensures RowLedger(ex', log', k, u) {
      assert RowLedger(ex, log', k, u);
    }
    forall u | u in ex'.inflight ensures AwaitsCallback(ex', u) {
      assert AwaitsCallback(ex, u);
    }
    forall u | u !in ex'.inflight ensures Accounted(ex', log', k, u, true) {
      assert Accounted(ex, log, k, u, true);
      if u in ex.rows {
        AppendCounts(log, k, e, u, ex.rows[u].generation);
      }
    }
  }

  /** Applying an event that is not a grace event moves the boundary only. */
  lemma ApplyOtherKeepsInv(ex: ExpirySide, log: seq<Event>, k: nat, trusted: bool)
    requires k < |log| && GraceInv(ex, log, k, trusted) && log[k].kind != KIND_GRACE
    ensures GraceInv(ex, log, k + 1, trusted)
  {
    var k' := k + 1;
    forall u ensures RowLedger(ex, log, k', u) {
      assert RowLedger(ex, log, k, u);
      if u in ex.rows {
        ApplyCounts(log, k, u, ex.rows[u].generation);
      }
    }
    forall u | u !in ex.inflight ensures Accounted(ex, log, k', u, trusted) {
      assert Accounted(ex, log, k, u, trusted);
      if u in ex.rows {
        ApplyCounts(log, k, u, ex.rows[u].generation);
      }
    }
  }

  /** Persisting a grace event moves one unit from the log to the table, or
      nothing at all when the event belongs to an older password. */
  lemma PersistKeepsInv(ex: ExpirySide, log: seq<Event>, k: nat, trusted: bool)
    requires k < |log| && GraceInv(ex, log, k, trusted) && log[k].kind == KIND_GRACE
    requires log[k].user !in ex.inflight
    requires PersistGrace(RowOf(ex.rows, log[k].user), log[k].generation).Persisted?
    ensures GraceInv(PersistInTable(ex, log[k].user, log[k].generation), log, k + 1, trusted)
  {
    var e := log[k];
    var ex' := PersistInTable(ex, e.user, e.generation);
    var k' := k + 1;
    assert forall u :: u != e.user ==> RowOf(ex'.rows, u) == RowOf(ex.rows, u);
    forall u ensures RowLedger(ex', log, k', u) {
      assert RowLedger(ex, log, k, u);
      if u in ex.rows {
        ApplyCounts(log, k, u, ex.rows[u].generation);
      }
    }
    forall u | u in ex'.inflight ensures AwaitsCallback(ex', u) {
      assert AwaitsCallback(ex, u);
    }
    forall u | u !in ex'.inflight ensures Accounted(ex', log, k', u, trusted) {
      assert Accounted(ex, log, k, u, trusted);
      assert RowLedger(ex, log, k, u);
      if u in ex.rows {
        ApplyCounts(log, k, u, ex.rows[u].generation);
      }
    }
  }

  /** What a committing transaction does to one user: a staged decision is the
      committed row, and without one the row is the old one. */
  ghost predicate ExpiryCommitOk(ex: ExpirySide, rows: map<Name, ExpiryRow>,
                                 decisions: map<Name, ExpiryDecision>, u: Name)
  {
    && (u !in decisions ==> RowOf(rows, u) == RowOf(ex.rows, u))
    && (u in decisions ==>
          && Occupied(u) && u !in ex.inflight
          && match decisions[u]
             case Keep => false
             case ClearExpiry => u !in rows
             case SetExpiry(m, g, grace) => grace >= 0 && RowOf(rows, u) == Some(ExpiryRow(g, m, grace)))
  }

  lemma CommitExpiryKeepsInv(ex: ExpirySide, log: seq<Event>, k: nat, trusted: bool,
                             rows: map<Name, ExpiryRow>, decisions: map<Name, ExpiryDecision>)
    requires k <= |log| && GraceInv(ex, log, k, trusted)
    requires forall u :: ExpiryCommitOk(ex, rows, decisions, u)
    ensures GraceInv(CommitExpiry(ex, log, k, rows, decisions), log, k, trusted)
  {
    var ex' := CommitExpiry(ex, log, k, rows, decisions);
    forall u ensures RowLedger(ex', log, k, u) {
      assert RowLedger(ex, log, k, u) && ExpiryCommitOk(ex, rows, decisions, u);
    }
    forall u | u in ex'.inflight ensures AwaitsCallback(ex', u) {
      assert ExpiryCommitOk(ex, rows, decisions, u);
      assert u !in decisions ==> AwaitsCallback(ex, u);
    }
    forall u | u !in ex'.inflight ensures Accounted(ex', log, k, u, trusted) {
      assert ExpiryCommitOk(ex, rows, decisions, u);
      assert Accounted(ex, log, k, u, trusted);
    }
  }

  /** What the callback does to the slots, as seen by `v`. */
  lemma AppliedExpirySlots(ex: ExpirySide, log: seq<Event>, k: nat, u: Name, v: Name)
    requires k <= |log| && UniqueExpiry(ex.slots) && u in ex.inflight && Occupied(u) && !ex.inflight[u].Keep?
    ensures var ex' := ApplyExpiry(ex, log, k, u);
            && |ex'.slots| == |ex.slots| && UniqueExpiry(ex'.slots)
            && (v != u ==> CachedRow(ex'.slots, v) == CachedRow(ex.slots, v))
            && (ex.inflight[u] == ClearExpiry ==> CachedRow(ex'.slots, u) == None && ex'.state == ex.state)
            && (ex.inflight[u].SetExpiry? ==>
                  var SetExpiry(m, g, grace) := ex.inflight[u];
                  || (ex'.state == Overflow && ex'.slots == ex.slots)
                  || CachedRow(ex'.slots, u) == Some(ExpirySlot(u, m, g, AtLeastZero(grace))))
  {
    match ex.inflight[u]
    case ClearExpiry =>
      ClearEntryRemovesOneRow(ex.slots, u, v);
      ClearEntryRemovesOneRow(ex.slots, u, u);
    case SetExpiry(m, g, grace) =>
      SetEntryChangesOneRow(ex.slots, u, m, g, grace, v);
      SetEntryChangesOneRow(ex.slots, u, m, g, grace, u);
    case Keep =>
  }

  lemma ApplyExpiryKeepsInv(ex: ExpirySide, log: seq<Event>, k: nat, u: Name, trusted: bool)
    requires k <= |log| && GraceInv(ex, log, k, trusted) && u in ex.inflight
    ensures var ex' := ApplyExpiry(ex, log, k, u);
            GraceInv(ex', log, k, trusted && ex'.state != Overflow)
  {
    var ex' := ApplyExpiry(ex, log, k, u);
    assert AwaitsCallback(ex, u);
    AppliedExpirySlots(ex, log, k, u, u);
    assert RowLedger(ex, log, k, u);
    forall v ensures RowLedger(ex', log, k, v) {
      assert RowLedger(ex, log, k, v);
    }
    forall v | v in ex'.inflight ensures AwaitsCallback(ex', v) {
      assert AwaitsCallback(ex, v);
      AppliedExpirySlots(ex, log, k, u, v);
    }
    forall v | v !in ex'.inflight ensures Accounted(ex', log, k, v, trusted && ex'.state != Overflow) {
      AppliedExpirySlots(ex, log, k, u, v);
      if v != u {
        assert Accounted(ex, log, k, v, trusted);
      }
    }
  }

  lemma RowSnapshotIsComplete(rows: map<Name, ExpiryRow>, prepared: seq<ExpirySlot>, u: Name)
    requires IsRowSnapshot(rows, prepared) && |prepared| == |rows.Keys| && u in rows
    ensures exists i :: 0 <= i < |prepared| && prepared[i].user == u
  {
    var names := seq(|prepared|, i requires 0 <= i < |prepared| => prepared[i].user);
    DistinctNamesCover(names, rows.Keys, u);
    var i :| 0 <= i < |names| && names[i] == u;
    assert prepared[i].user == u;
  }

  /** Hydration makes the cache Ready exactly when all rows fit, and Overflow
      otherwise. */
  lemma ExpiryHydrationIsReadyIff(ex: ExpirySide, prepared: seq<ExpirySlot>, log: seq<Event>, k: nat)
    requires k <= |log| && IsRowSnapshot(ex.rows, prepared)
    ensures HydrateExpiry(ex, prepared, log, k).state ==
              if |ex.rows| <= EXPIRY_CACHE_SIZE then Ready else Overflow
  {
    assert |ex.rows.Keys| == |ex.rows|;
  }

  /** There always is a snapshot to hydrate from. */
  lemma RowSnapshotExists(rows: map<Name, ExpiryRow>) returns (prepared: seq<ExpirySlot>)
    ensures IsRowSnapshot(rows, prepared)
  {
    var all := rows.Keys;
    var names := DrawNames(all, if |all| < EXPIRY_CACHE_SIZE then |all| else EXPIRY_CACHE_SIZE);
    prepared := seq(|names|, i requires 0 <= i < |names| && names[i] in rows =>
                      var row := rows[names[i]];
                      ExpirySlot(names[i], row.mustChangeBy, row.generation, AtLeastZero(row.grace)));
  }

  /** A password row finds neither its user's slot nor a free one. */
  ghost predicate RowRefused(ex: ExpirySide, u: Name)
    requires u in ex.inflight
  {
    && ex.inflight[u].SetExpiry? && Occupied(u)
    && forall i :: 0 <= i < |ex.slots| ==> Occupied(ex.slots[i].user) && ex.slots[i].user != u
  }

  /** A callback records Overflow, and leaves the slots, exactly when its row is
      refused; otherwise it leaves the state alone. */
  lemma ApplyExpiryOverflows(ex: ExpirySide, log: seq<Event>, k: nat, u: Name)
    requires k <= |log| && u in ex.inflight
    ensures ApplyExpiry(ex, log, k, u).state == (if RowRefused(ex, u) then Overflow else ex.state)
    ensures RowRefused(ex, u) ==> ApplyExpiry(ex, log, k, u).slots == ex.slots
  {
  }

  /** Hydration re-establishes the identity with the pending events as slack. */
  lemma HydrateExpiryKeepsInv(ex: ExpirySide, log: seq<Event>, k: nat, prepared: seq<ExpirySlot>)
    requires k <= |log| && GraceInv(ex, log, k, false)
    requires ex.inflight == map[] && IsRowSnapshot(ex.rows, prepared)
    ensures var ex' := HydrateExpiry(ex, prepared, log, k);
            GraceInv(ex', log, k, ex'.state == Ready)
  {
    var ex' := HydrateExpiry(ex, prepared, log, k);
    forall i | 0 <= i < |prepared| ensures Occupied(prepared[i].user) {
      assert RowLedger(ex, log, k, prepared[i].user);
    }
    HydrationInstallsRows(prepared, NoName());
    forall u ensures RowLedger(ex', log, k, u) {
      assert RowLedger(ex, log, k, u);
    }
    var trusted := ex'.state == Ready;
    forall u ensures Accounted(ex', log, k, u, trusted) {
      HydrationInstallsRows(prepared, u);
      assert RowLedger(ex, log, k, u);
      if u in ex.rows && ex'.state == Ready {
        RowSnapshotIsComplete(ex.rows, prepared, u);
      }
    }
  }

  /** Losing the cache and the unfinished callbacks loses no account. */
  lemma LossKeepsInv(ex: ExpirySide, log: seq<Event>, k: nat, trusted: bool)
    requires k <= |log| && GraceInv(ex, log, k, trusted)
    ensures GraceInv(LoseExpiry(ex, log, k), log, k, false)
  {
    var ex' := LoseExpiry(ex, log, k);
    assert forall u :: CachedRow(ex'.slots, u) == None;
    forall u ensures RowLedger(ex', log, k, u) {
      assert RowLedger(ex, log, k, u);
    }
    forall u ensures Accounted(ex', log, k, u, false) {
      assert u !in ex.inflight ==> Accounted(ex, log, k, u, trusted);
    }
  }

  // ---------------------------------------------------------------------
  // Consequences
  // ---------------------------------------------------------------------

  /** What the log still holds against `u`'s row is covered by the row and the
      slack, whatever state the cache is in. */
  lemma PendingIsCovered(ex: ExpirySide, log: seq<Event>, k: nat, trusted: bool, u: Name)
    requires k <= |log| && GraceInv(ex, log, k, trusted) && u in ex.rows && u !in ex.inflight
    ensures Pending(log, k, u, ex.rows[u].generation) <= ex.rows[u].grace + SlackOf(ex, u)
  {
    assert RowLedger(ex, log, k, u) && Accounted(ex, log, k, u, trusted);
  }

  /** Grace logins ever recorded under the current generation exceed its
      allowance by no more than the slack. */
  lemma GraceLoginsWithinAllowance(ex: ExpirySide, log: seq<Event>, k: nat, trusted: bool, u: Name)
    requires k <= |log| && GraceInv(ex, log, k, trusted) && u in ex.rows && u !in ex.inflight
    ensures u in ex.allowance
    ensures CountGrace(log, u, ex.rows[u].generation) <= ex.allowance[u] + SlackOf(ex, u)
  {
    assert RowLedger(ex, log, k, u);
    PendingIsCovered(ex, log, k, trusted, u);
    UsedPlusPending(log, k, u, ex.rows[u].generation);
  }

  /** For a user whose cache entry is current: every grace login ever recorded
      for this password, plus what the cache still offers, is the allowance
      plus the slack. */
  lemma GraceBalance(ex: ExpirySide, log: seq<Event>, k: nat, u: Name)
    requires k <= |log| && GraceInv(ex, log, k, true) && u !in ex.inflight && u in ex.rows
    ensures var s, g := CachedRow(ex.slots, u), ex.rows[u].generation;
            && s.Some? && s.value.generation == g && u in ex.allowance
            && CountGrace(log, u, g) + s.value.grace == ex.allowance[u] + SlackOf(ex, u)
  {
    assert RowLedger(ex, log, k, u) && Accounted(ex, log, k, u, true);
    UsedPlusPending(log, k, u, ex.rows[u].generation);
  }

  /** Without slack the contradiction error is never met. */
  lemma NoSlackNoContradiction(ex: ExpirySide, log: seq<Event>, k: nat, trusted: bool)
    requires k < |log| && GraceInv(ex, log, k, trusted)
    requires log[k].kind == KIND_GRACE && log[k].user !in ex.inflight && SlackOf(ex, log[k].user) == 0
    ensures PersistGrace(RowOf(ex.rows, log[k].user), log[k].generation).Persisted?
  {
    var u, g := log[k].user, log[k].generation;
    if u in ex.rows && ex.rows[u].generation == g {
      PendingIsCovered(ex, log, k, trusted, u);
      ApplyCounts(log, k, u, g);
    }
  }

  /** The contradiction error is met exactly when the next event is a grace
      event of the current generation and the slack equals all that the cache
      and the log still account for. */
  lemma ContradictionIff(ex: ExpirySide, log: seq<Event>, k: nat)
    requires k < |log| && GraceInv(ex, log, k, true)
    requires log[k].kind == KIND_GRACE && log[k].user !in ex.inflight
    ensures var u, g := log[k].user, log[k].generation;
            PersistGrace(RowOf(ex.rows, u), g).Contradiction? <==>
              && u in ex.rows && ex.rows[u].generation == g
              && CachedRow(ex.slots, u).Some?
              && CachedRow(ex.slots, u).value.grace + Pending(log, k, u, g) == SlackOf(ex, u)
  {
    var u, g := log[k].user, log[k].generation;
    assert RowLedger(ex, log, k, u) && Accounted(ex, log, k, u, true);
    ApplyCounts(log, k, u, g);
  }

  /** The rows after the next event of the log is applied. */
  function RowsApplied(ex: ExpirySide, e: Event): map<Name, ExpiryRow>
    requires e.kind == KIND_GRACE ==> PersistGrace(RowOf(ex.rows, e.user), e.generation).Persisted?
  {
    if e.kind == KIND_GRACE then PersistInTable(ex, e.user, e.generation).rows else ex.rows
  }

  /** Applying an event moves grace from a row to what has been taken from it. */
  lemma ApplyKeepsFunds(ex: ExpirySide, log: seq<Event>, k: nat, u: Name)
    requires k < |log| && u in ex.rows && ex.rows[u].grace >= 0
    requires log[k].kind == KIND_GRACE ==> PersistGrace(RowOf(ex.rows, log[k].user), log[k].generation).Persisted?
    ensures var rows, g := RowsApplied(ex, log[k]), ex.rows[u].generation;
            && u in rows && rows[u].generation == g
            && rows[u].grace + Used(log, k + 1, u, g) == ex.rows[u].grace + Used(log, k, u, g)
            && rows[u].grace - Pending(log, k + 1, u, g) == ex.rows[u].grace - Pending(log, k, u, g)
  {
    ApplyCounts(log, k, u, ex.rows[u].generation);
  }

  // ---------------------------------------------------------------------
  // Generations of rows that are kept
  // ---------------------------------------------------------------------

  /** Whatever the cache and the log know of `u` is about a row that is still
      there, no newer than it, and older while a new row awaits its callback. */
  ghost predicate NotNewer(ex: ExpirySide, log: seq<Event>, u: Name) {
    && (CachedRow(ex.slots, u).Some? ==> KnownUpTo(ex, u, CachedRow(ex.slots, u).value.generation))
    && (forall i :: 0 <= i < |log| && log[i].kind == KIND_GRACE && log[i].user == u ==>
          KnownUpTo(ex, u, log[i].generation))
  }

  ghost predicate KnownUpTo(ex: ExpirySide, u: Name, g: int) {
    u in ex.rows && g <= ex.rows[u].generation && (u in ex.inflight ==> g < ex.rows[u].generation)
  }

  /** So no event of the log is about a newer generation, nor about the row that
      awaits its callback. */
  lemma NoneOfNewer(ex: ExpirySide, log: seq<Event>, k: nat, u: Name, g: int)
    requires k <= |log| && NotNewer(ex, log, u)
    requires u in ex.rows ==> ex.rows[u].generation < g || (u in ex.inflight && ex.rows[u].generation == g)
    ensures CountGrace(log, u, g) == 0 && Used(log, k, u, g) == 0 && Pending(log, k, u, g) == 0
  {
    CountNone(log, u, g);
    UsedPlusPending(log, k, u, g);
  }

  /** The decision writes a row newer than the one it replaces. */
  ghost predicate Newer(ex: ExpirySide, d: ExpiryDecision, u: Name) {
    d.SetExpiry? && (u in ex.rows ==> ex.rows[u].generation < d.generation)
  }

  /** The allowance is the grace the decision writes. */
  ghost predicate AllowsJust(ex: ExpirySide, d: ExpiryDecision, u: Name) {
    d.SetExpiry? && u in ex.allowance && ex.allowance[u] == d.grace
  }

  lemma CommitKeepsNotNewer(ex: ExpirySide, log: seq<Event>, k: nat, rows: map<Name, ExpiryRow>,
                            decisions: map<Name, ExpiryDecision>, u: Name)
    requires k <= |log| && NotNewer(ex, log, u) && ExpiryCommitOk(ex, rows, decisions, u)
    requires u in decisions ==> Newer(ex, decisions[u], u)
    ensures NotNewer(CommitExpiry(ex, log, k, rows, decisions), log, u)
    ensures u in decisions ==> AllowsJust(CommitExpiry(ex, log, k, rows, decisions), decisions[u], u)
  {
    if u in decisions {
      NoneOfNewer(ex, log, k, u, decisions[u].generation);
    }
  }

  /** A row deleted and written again can get the generation of an old password:
      a grace event queued against generation `g` spends the new allowance
      exactly when the clock reads `g` again. */
  lemma RecreatedRowIsSpentIff(clock: int, lifetime: int, grace: int, g: int)
    requires grace > 0
    ensures var row := ChangeRow(None, clock, lifetime, grace);
            PersistGrace(Some(row), g) != Persisted(Some(row)) <==> clock == g
  {
  }
}
