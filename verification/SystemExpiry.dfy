/** What a login is told about its password: from the committed change through its
    callback to the last grace login.
 */
module SystemExpiry {
  import opened AuthTypes
  import opened LockCache
  import opened ExpiryCache
  import opened PendingOps
  import opened Transactions
  import opened GraceLedger
  import opened AuthSystem
  import opened SystemRuns
  import opened SystemInvariant
  import opened SystemTheorems
  import P = EventProtocol

  // ---------------------------------------------------------------------
  // From the change to the cache
  // ---------------------------------------------------------------------

  /** A committed transaction whose last operation on `u` is a password change
      leaves a row that expires its lifetime after its generation, with its
      grace, and puts exactly that row in flight. */
  lemma ChangeIsCommitted(s: System, a: SysAction, u: Name)
    requires a.BackendCommit? && Enabled(s, a)
    requires LastOpOn(a.tx.ops[0], u).Some? && LastOpOn(a.tx.ops[0], u).value.ChangePassword?
    ensures var op, s' := LastOpOn(a.tx.ops[0], u).value, Step(s, a);
            && u in s'.ex.rows && u in s'.ex.inflight
            && s'.ex.rows[u].mustChangeBy == s'.ex.rows[u].generation + op.lifetime
            && s'.ex.rows[u].grace == op.grace && s'.ex.rows[u].generation >= op.clock
            && s'.ex.inflight[u] == SetExpiry(s'.ex.rows[u].mustChangeBy, s'.ex.rows[u].generation, op.grace)
  {
    TransactionIsItsSurvivors(DbOf(s), a.start, a.subid, a.steps, a.tx, u);
    LastChangeIsWritten(DbOf(s), a.tx.ops[0], a.start, u);
    ExpiryStagedIff(DbOf(s), a.start, a.subid, a.steps, a.tx, u);
    StagedExpiriesAre(s, a, u);
    StagedDecisionsAgree(DbOf(s), a.start, a.subid, a.steps, a.tx, u, s.clock);
  }

  /** The callback gives the cache the row in flight, or records Overflow. */
  lemma ChangeIsApplied(s: System, u: Name)
    requires UniqueExpiry(s.ex.slots) && u in s.ex.inflight && s.ex.inflight[u].SetExpiry? && Occupied(u)
    ensures var s', SetExpiry(m, g, grace) := Step(s, ApplyExpiryEntry(u)), s.ex.inflight[u];
            && s'.ex.rows == s.ex.rows && u !in s'.ex.inflight
            && (s'.ex.state == Overflow || CachedRow(s'.ex.slots, u) == Some(ExpirySlot(u, m, g, AtLeastZero(grace))))
  {
    AppliedExpirySlots(s.ex, s.p.written, Cut(s), u, u);
  }

  // ---------------------------------------------------------------------
  // What a login is told
  // ---------------------------------------------------------------------

  /** The answer about `u` at `t`: not expired before `mustChangeBy`; after it, with
      grace as long as fewer grace logins have been recorded than were granted,
      and none left once they are as many. */
  ghost predicate Answers(s: System, u: Name, t: int) {
    var answer := Lookup(s.ex.slots, s.ex.state, u, t);
    if u !in s.ex.rows then answer == NoRow
    else
      var row, used := s.ex.rows[u], CountGrace(s.p.written, u, s.ex.rows[u].generation);
      && u in s.ex.allowance
      && (answer == NotExpired <==> t < row.mustChangeBy)
      && (answer == ExpiredWithGrace <==> row.mustChangeBy <= t && used < s.ex.allowance[u])
      && (answer == ExpiredNoGrace <==> row.mustChangeBy <= t && used == s.ex.allowance[u])
  }

  lemma ExactAccountsAnswer(s: System, u: Name, t: int)
    requires GracePart(s) && NoSlack(s) && s.ex.state == Ready && u !in s.ex.inflight
    ensures Answers(s, u, t)
  {
    LookupTells(s.ex.slots, s.ex.state, u, t);
    InvMeansGraceAccounted(s, u);
    assert Accounted(s.ex, s.p.written, |s.p.applied|, u, true);
  }

  /** In every clean run, hydrations and crashes included: whenever the expiry
      cache is Ready and no change of `u` awaits its callback, every login of `u`
      is told what the table, the journal and the allowance say. */
  lemma {:induction false} CleanRunsAnswer(clock: int, acts: seq<SysAction>, s: System, u: Name, t: int)
    requires CleanRun(Init(clock), acts, s) && s.ex.state == Ready && u !in s.ex.inflight
    ensures Answers(s, u, t)
  {
    InitHoldsPipeline(clock);
    InitHoldsGrace(clock);
    CleanRunsKeepNoSlack(Init(clock), acts, s);
    ExactAccountsAnswer(s, u, t);
  }

  /** Not expired exactly while `lifetime` since the generation has not passed, and
      after that with grace exactly if `grace` is some. */
  ghost predicate AnswersAsNew(s: System, u: Name, t: int, lifetime: int, grace: int) {
    && u in s.ex.rows
    && var end, answer := s.ex.rows[u].generation + lifetime, Lookup(s.ex.slots, s.ex.state, u, t);
       && (answer == NotExpired <==> t < end)
       && (answer == ExpiredWithGrace <==> end <= t && grace > 0)
       && (answer == ExpiredNoGrace <==> end <= t && grace == 0)
  }

  lemma CachedRowAnswers(s: System, u: Name, t: int, lifetime: int, grace: nat)
    requires s.ex.state == Ready && u in s.ex.rows
    requires s.ex.rows[u].mustChangeBy == s.ex.rows[u].generation + lifetime
    requires CachedRow(s.ex.slots, u)
          == Some(ExpirySlot(u, s.ex.rows[u].mustChangeBy, s.ex.rows[u].generation, grace))
    ensures AnswersAsNew(s, u, t, lifetime, grace)
  {
    LookupTells(s.ex.slots, s.ex.state, u, t);
  }

  /** A password change, its commit and its callback: as long as the cache is
      Ready, logins are told what the change wrote. */
  lemma NewPasswordAnswers(s: System, a: SysAction, s1: System, s2: System, u: Name, t: int)
    requires a.BackendCommit? && Enabled(s, a) && s1 == Step(s, a)
    requires Enabled(s1, ApplyExpiryEntry(u)) && s2 == Step(s1, ApplyExpiryEntry(u))
    requires UniqueExpiry(s.ex.slots) && Occupied(u) && s2.ex.state == Ready
    requires LastOpOn(a.tx.ops[0], u).Some? && LastOpOn(a.tx.ops[0], u).value.ChangePassword?
    ensures var op := LastOpOn(a.tx.ops[0], u).value;
            AnswersAsNew(s2, u, t, op.lifetime, op.grace) && s2.ex.rows[u].generation >= op.clock
  {
    ChangeIsCommitted(s, a, u);
    assert s1.ex.slots == s.ex.slots;
    ChangeIsApplied(s1, u);
    var op := LastOpOn(a.tx.ops[0], u).value;
    CachedRowAnswers(s2, u, t, op.lifetime, op.grace);
  }

  // ---------------------------------------------------------------------
  // Using the grace up
  // ---------------------------------------------------------------------

  /** `u`'s password of generation `g` has expired and the cache offers `n` grace
      logins. */
  ghost predicate Offers(s: System, u: Name, g: int, n: nat) {
    && s.ex.state == Ready && UniqueExpiry(s.ex.slots) && CachedRow(s.ex.slots, u).Some?
    && var row := CachedRow(s.ex.slots, u).value;
       row.mustChangeBy <= s.clock && row.generation == g && row.grace == n
  }

  ghost predicate Unused(s: System, id: seq<byte>) {
    forall i :: 0 <= i < |s.p.written| ==> s.p.written[i].id != id
  }

  /** One grace login, Consumed. */
  lemma LoginOnce(s: System, u: Name, g: int, n: nat, id: seq<byte>) returns (s': System)
    requires Offers(s, u, g, n) && n > 0 && Unused(s, id)
    ensures Leads(s, s') && Offers(s', u, g, n - 1)
    ensures CountGrace(s'.p.written, u, g) == CountGrace(s.p.written, u, g) + 1
    ensures forall x :: x != id && Unused(s, x) ==> Unused(s', x)
  {
    var a := GraceLogin(id, u, 0, Synced);
    LookupTells(s.ex.slots, s.ex.state, u, s.clock);
    assert Enabled(s, a);
    s' := Step(s, a);
    LeadsByStep(s, a);
    TakeGraceChangesOneRow(s.ex.slots, u, u);
    OneMoreRecorded(s.p.written, s'.p.written, u, g);
  }

  lemma OneMoreRecorded(log: seq<Event>, log': seq<Event>, u: Name, g: int)
    requires |log'| == |log| + 1 && log <= log' && IsGrace(log'[|log|], u, g)
    ensures CountGrace(log', u, g) == CountGrace(log, u, g) + 1
  {
    assert log'[..|log'| - 1] == log;
  }

  lemma LeadsNowhere(s: System)
    ensures Leads(s, s)
  {
    assert Trace([s]);
  }

  /** Nothing left: every further attempt is told so. */
  lemma NoneLeft(s: System, u: Name, g: int, t: int)
    requires Offers(s, u, g, 0) && s.clock <= t
    ensures Lookup(s.ex.slots, s.ex.state, u, t) == ExpiredNoGrace
    ensures UnqueuedOutcome(s.ex.slots, s.ex.state, u, t) == NoGrace
    ensures forall id, flags, result :: t == s.clock ==> !Enabled(s, GraceLogin(id, u, flags, result))
  {
    LookupTells(s.ex.slots, s.ex.state, u, t);
  }

  /** As many grace logins as the cache offers are Consumed, one after the other,
      and none is left then. */
  lemma {:induction false} GraceRunsOut(s: System, u: Name, g: int, ids: seq<seq<byte>>) returns (s': System)
    requires Offers(s, u, g, |ids|)
    requires forall i :: 0 <= i < |ids| ==> Unused(s, ids[i])
    requires forall i, j :: 0 <= i < j < |ids| ==> ids[i] != ids[j]
    ensures Leads(s, s') && Offers(s', u, g, 0)
    ensures CountGrace(s'.p.written, u, g) == CountGrace(s.p.written, u, g) + |ids|
    decreases |ids|
  {
    if ids == [] {
      s' := s;
      LeadsNowhere(s);
    } else {
      var s1 := LoginOnce(s, u, g, |ids|, ids[0]);
      s' := GraceRunsOut(s1, u, g, ids[1..]);
      LeadsOn(s, s1, s');
    }
  }
}
