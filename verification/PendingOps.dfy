/** Savepoint-aware staging of cache operations (`PendingState`).

    The staging area is a bounded array of entries tagged with the
    subtransaction that owns them. The reference is much simpler: a stack of
    logs, one per open savepoint level, in which a rollback drops the top log
    and a release appends it to its parent's. `Simulates` connects the two.
 */
module PendingOps {
  import opened AuthTypes
  import EventRing

  const MAX_PENDING_OPS: nat := 16

  datatype CacheDecision = SetLock(expiresAt: int) | ClearLock

  datatype ExpiryDecision =
    | Keep
    | SetExpiry(mustChangeBy: int, generation: int, grace: int)
    | ClearExpiry

  /** What one staged entry does to the two caches. */
  datatype Pair = Pair(lock: Option<CacheDecision>, expiry: ExpiryDecision)

  datatype Entry = Entry(user: Name, pair: Pair, subid: nat)

  datatype PendingAck = PendingAck(token: EventRing.ClaimToken, subid: nat)

  // ---------------------------------------------------------------------
  // The array algorithms as functions of the live entries
  // ---------------------------------------------------------------------

  predicate Matches(e: Entry, user: Name, subid: nat) {
    e.user == user && e.subid == subid
  }

  /** Index of the latest entry of `user` at level `subid`, or -1. */
  function LatestMatch(es: seq<Entry>, user: Name, subid: nat): (i: int)
    ensures -1 <= i < |es|
    ensures i >= 0 ==> Matches(es[i], user, subid)
    ensures forall j :: i < j < |es| ==> !Matches(es[j], user, subid)
  {
    if es == [] then -1
    else if Matches(es[|es| - 1], user, subid) then |es| - 1
    else LatestMatch(es[..|es| - 1], user, subid)
  }

  predicate HasRoom(es: seq<Entry>, user: Name, subid: nat) {
    LatestMatch(es, user, subid) >= 0 || |es| < MAX_PENDING_OPS
  }

  /** `stage_entry` when it is not refused. */
  function Stage(es: seq<Entry>, user: Name, pair: Pair, subid: nat): seq<Entry> {
    var i := LatestMatch(es, user, subid);
    if i >= 0 then es[i := Entry(user, pair, subid)] else es + [Entry(user, pair, subid)]
  }

  /** `on_sub_abort`: drop what the level staged. */
  function Abort(es: seq<Entry>, subid: nat): seq<Entry> {
    if es == [] then []
    else if es[|es| - 1].subid == subid then Abort(es[..|es| - 1], subid)
    else Abort(es[..|es| - 1], subid) + [es[|es| - 1]]
  }

  /** First half of `on_sub_commit`: the parent adopts the level's entries. */
  function Reparent(es: seq<Entry>, subid: nat, parent: nat): (r: seq<Entry>)
    ensures |r| == |es|
    ensures forall i :: 0 <= i < |es| ==>
              r[i] == if es[i].subid == subid then es[i].(subid := parent) else es[i]
  {
    if es == [] then []
    else Reparent(es[..|es| - 1], subid, parent)
         + [if es[|es| - 1].subid == subid then es[|es| - 1].(subid := parent) else es[|es| - 1]]
  }

  /** Entry `i` is superseded by a later one of the same user and level. */
  predicate Superseded(es: seq<Entry>, i: nat)
    requires i < |es|
  {
    exists j :: i < j < |es| && Matches(es[j], es[i].user, es[i].subid)
  }

  /** `compact_duplicates`, over the first `n` entries. */
  function CompactTo(es: seq<Entry>, n: nat): (r: seq<Entry>)
    requires n <= |es|
    ensures |r| <= n
  {
    if n == 0 then []
    else if Superseded(es, n - 1) then CompactTo(es, n - 1)
    else CompactTo(es, n - 1) + [es[n - 1]]
  }

  function Compact(es: seq<Entry>): seq<Entry> {
    CompactTo(es, |es|)
  }

  function Release(es: seq<Entry>, subid: nat, parent: nat): seq<Entry> {
    Compact(Reparent(es, subid, parent))
  }

  /** What the apply loop leaves for `user`: the last entry wins. */
  function Resolved(es: seq<Entry>, user: Name): Option<Pair> {
    if es == [] then None
    else if es[|es| - 1].user == user then Some(es[|es| - 1].pair)
    else Resolved(es[..|es| - 1], user)
  }

  // ---------------------------------------------------------------------
  // Reference: a stack of per-savepoint logs
  // ---------------------------------------------------------------------

  /** One open level: its subtransaction id and the stage calls made in it that
      no rollback has discarded, oldest first. */
  datatype Level = Level(subid: nat, log: seq<(Name, Pair)>)

  function LastOf(log: seq<(Name, Pair)>, user: Name): Option<Pair> {
    if log == [] then None
    else if log[|log| - 1].0 == user then Some(log[|log| - 1].1)
    else LastOf(log[..|log| - 1], user)
  }

  /** All surviving stage calls, oldest first. */
  function Survivors(levels: seq<Level>): seq<(Name, Pair)> {
    if levels == [] then [] else Survivors(levels[..|levels| - 1]) + levels[|levels| - 1].log
  }

  datatype StageOp =
    | StageCall(user: Name, pair: Pair)
    | StartLevel(subid: nat)
    | CommitLevel
    | AbortLevel

  /** The staging area together with its reference. */
  datatype Staging = Staging(levels: seq<Level>, entries: seq<Entry>)

  ghost predicate FreshId(levels: seq<Level>, subid: nat) {
    forall i :: 0 <= i < |levels| ==> levels[i].subid != subid
  }

  /** PostgreSQL numbers subtransactions freshly, keeps the top level open until
      the end, and a stage call is only possible where it fits. */
  ghost predicate Allowed(s: Staging, op: StageOp)
    requires s.levels != []
  {
    match op
    case StageCall(u, p) => HasRoom(s.entries, u, s.levels[|s.levels| - 1].subid)
    case StartLevel(id) => FreshId(s.levels, id)
    case CommitLevel => |s.levels| > 1
    case AbortLevel => |s.levels| > 1
  }

  function Perform(s: Staging, op: StageOp): (r: Staging)
    requires s.levels != []
    requires op.CommitLevel? || op.AbortLevel? ==> |s.levels| > 1
    ensures r.levels != []
  {
    var n := |s.levels|;
    var top := s.levels[n - 1];
    match op
    case StageCall(u, p) =>
      Staging(s.levels[n - 1 := top.(log := top.log + [(u, p)])], Stage(s.entries, u, p, top.subid))
    case StartLevel(id) =>
      Staging(s.levels + [Level(id, [])], s.entries)
    case CommitLevel =>
      var parent := s.levels[n - 2];
      Staging(s.levels[..n - 2] + [parent.(log := parent.log + top.log)],
              Release(s.entries, top.subid, parent.subid))
    case AbortLevel =>
      Staging(s.levels[..n - 1], Abort(s.entries, top.subid))
  }

  /** Index of the level with this id, or -1. */
  function Depth(levels: seq<Level>, subid: nat): (k: int)
    ensures -1 <= k < |levels|
    ensures k >= 0 ==> levels[k].subid == subid
  {
    if levels == [] then -1
    else if levels[|levels| - 1].subid == subid then |levels| - 1
    else Depth(levels[..|levels| - 1], subid)
  }

  /** The latest pair `user` has at level `subid`. */
  function PairAt(es: seq<Entry>, user: Name, subid: nat): Option<Pair> {
    if es == [] then None
    else if Matches(es[|es| - 1], user, subid) then Some(es[|es| - 1].pair)
    else PairAt(es[..|es| - 1], user, subid)
  }

  ghost predicate DistinctIds(levels: seq<Level>) {
    forall i, j :: 0 <= i < j < |levels| ==> levels[i].subid != levels[j].subid
  }

  ghost predicate InOpenLevels(levels: seq<Level>, es: seq<Entry>) {
    forall e :: e in es ==> Depth(levels, e.subid) >= 0
  }

  /** For each user, later entries sit at strictly deeper levels. */
  ghost predicate Nested(levels: seq<Level>, es: seq<Entry>) {
    forall i, j :: 0 <= i < j < |es| && es[i].user == es[j].user ==>
      Depth(levels, es[i].subid) < Depth(levels, es[j].subid)
  }

  /** Entries belong to open levels, sit in nesting order for each user (so are
      unique per user and level), and each represents the last surviving stage
      call of its user at its level. */
  ghost predicate Simulates(s: Staging) {
    && s.levels != []
    && DistinctIds(s.levels)
    && InOpenLevels(s.levels, s.entries)
    && Nested(s.levels, s.entries)
    && (forall k, u :: 0 <= k < |s.levels| ==>
          PairAt(s.entries, u, s.levels[k].subid) == LastOf(s.levels[k].log, u))
  }

  // ---------------------------------------------------------------------
  // The array algorithms simulate the reference
  // ---------------------------------------------------------------------

  ghost predicate WeaklyNested(levels: seq<Level>, es: seq<Entry>) {
    forall i, j :: 0 <= i < j < |es| && es[i].user == es[j].user ==>
      Depth(levels, es[i].subid) <= Depth(levels, es[j].subid)
  }

  lemma DepthOfLevel(levels: seq<Level>, k: nat)
    requires DistinctIds(levels) && k < |levels|
    ensures Depth(levels, levels[k].subid) == k
  {
  }

  /** Depths depend on the ids of the levels alone. */
  lemma {:induction false} DepthSameIds(a: seq<Level>, b: seq<Level>, subid: nat)
    requires |a| == |b| && forall i :: 0 <= i < |a| ==> a[i].subid == b[i].subid
    ensures Depth(a, subid) == Depth(b, subid)
  {
    if a != [] {
      DepthSameIds(a[..|a| - 1], b[..|b| - 1], subid);
    }
  }

  lemma NestedSnoc(levels: seq<Level>, es: seq<Entry>, x: Entry)
    requires Nested(levels, es)
    requires forall e :: e in es && e.user == x.user ==> Depth(levels, e.subid) < Depth(levels, x.subid)
    ensures Nested(levels, es + [x])
  {
  }

  lemma StageNests(s: Staging, u: Name, p: Pair)
    requires Simulates(s)
    ensures var s' := Perform(s, StageCall(u, p));
            Nested(s.levels, s'.entries) && InOpenLevels(s.levels, s'.entries)
  {
    var n, es := |s.levels|, s.entries;
    var x := Entry(u, p, s.levels[n - 1].subid);
    var i := LatestMatch(es, u, x.subid);
    DepthOfLevel(s.levels, n - 1);
    if i < 0 {
      forall e | e in es && e.user == u ensures Depth(s.levels, e.subid) < n - 1 {
        assert !Matches(e, u, x.subid);
      }
      NestedSnoc(s.levels, es, x);
    } else {
      RestagedNests(s.levels, es, i, x);
    }
  }

  lemma RestagedNests(levels: seq<Level>, es: seq<Entry>, i: nat, x: Entry)
    requires Nested(levels, es) && InOpenLevels(levels, es)
    requires i < |es| && es[i].user == x.user && es[i].subid == x.subid
    ensures Nested(levels, es[i := x]) && InOpenLevels(levels, es[i := x])
  {
    var es' := es[i := x];
    assert forall j :: 0 <= j < |es| ==> es'[j].subid == es[j].subid && es'[j].user == es[j].user;
    forall e: Entry | e in es' ensures Depth(levels, e.subid) >= 0 {
      var j :| 0 <= j < |es'| && es'[j] == e;
      assert es[j] in es;
    }
  }

  lemma StageSimulates(s: Staging, u: Name, p: Pair)
    requires Simulates(s)
    ensures Simulates(Perform(s, StageCall(u, p)))
  {
    var s' := Perform(s, StageCall(u, p));
    StageNests(s, u, p);
    forall id: nat ensures Depth(s'.levels, id) == Depth(s.levels, id) {
      DepthSameIds(s.levels, s'.levels, id);
    }
    forall k, v | 0 <= k < |s.levels|
      ensures PairAt(s'.entries, v, s'.levels[k].subid) == LastOf(s'.levels[k].log, v)
    {
      StageRepresents(s, u, p, k, v);
    }
  }

  lemma StageRepresents(s: Staging, u: Name, p: Pair, k: nat, v: Name)
    requires k < |s.levels| && DistinctIds(s.levels)
    requires PairAt(s.entries, v, s.levels[k].subid) == LastOf(s.levels[k].log, v)
    ensures var s' := Perform(s, StageCall(u, p));
            PairAt(s'.entries, v, s'.levels[k].subid) == LastOf(s'.levels[k].log, v)
  {
    var top := s.levels[|s.levels| - 1];
    var s' := Perform(s, StageCall(u, p));
    StagePairAt(s.entries, u, p, top.subid, v, s.levels[k].subid);
    if k == |s.levels| - 1 {
      LastOfConcat(top.log, [(u, p)], v);
    }
  }

  lemma {:induction false} PairAtIndex(es: seq<Entry>, u: Name, id: nat)
    ensures var i := LatestMatch(es, u, id);
            PairAt(es, u, id) == if i >= 0 then Some(es[i].pair) else None
  {
    if es != [] && !Matches(es[|es| - 1], u, id) {
      PairAtIndex(es[..|es| - 1], u, id);
    }
  }

  lemma PairAtSnoc(es: seq<Entry>, x: Entry, u: Name, id: nat)
    ensures PairAt(es + [x], u, id) == if Matches(x, u, id) then Some(x.pair) else PairAt(es, u, id)
  {
    assert (es + [x])[..|es|] == es;
  }

  /** A stage call changes what one user has at one level. */
  lemma StagePairAt(es: seq<Entry>, u: Name, p: Pair, subid: nat, v: Name, id: nat)
    ensures PairAt(Stage(es, u, p, subid), v, id)
         == if v == u && id == subid then Some(p) else PairAt(es, v, id)
  {
    var i := LatestMatch(es, u, subid);
    var es' := Stage(es, u, p, subid);
    if i < 0 {
      PairAtSnoc(es, Entry(u, p, subid), v, id);
    } else {
      PairAtIndex(es, v, id);
      PairAtIndex(es', v, id);
      var a, b := LatestMatch(es, v, id), LatestMatch(es', v, id);
      assert forall j :: 0 <= j < |es| ==> Matches(es'[j], v, id) == Matches(es[j], v, id);
      assert a == b;
    }
  }

  lemma {:induction false} AbortFacts(levels: seq<Level>, es: seq<Entry>, subid: nat)
    requires Nested(levels, es)
    ensures Nested(levels, Abort(es, subid))
    ensures forall e :: e in Abort(es, subid) ==> e in es && e.subid != subid
  {
    if es != [] {
      var init, x := es[..|es| - 1], es[|es| - 1];
      AbortFacts(levels, init, subid);
      var r0, r := Abort(init, subid), Abort(es, subid);
      assert forall e :: e in init ==> e in es;
      forall i, j | 0 <= i < j < |r| && r[i].user == r[j].user
        ensures Depth(levels, r[i].subid) < Depth(levels, r[j].subid)
      {
        assert r[i] in r0 && r[i] in init;
      }
    }
  }

  lemma {:induction false} AbortPairAt(es: seq<Entry>, subid: nat, u: Name, id: nat)
    requires id != subid
    ensures PairAt(Abort(es, subid), u, id) == PairAt(es, u, id)
  {
    if es != [] {
      AbortPairAt(es[..|es| - 1], subid, u, id);
      PairAtSnoc(Abort(es[..|es| - 1], subid), es[|es| - 1], u, id);
    }
  }

  lemma AbortSimulates(s: Staging)
    requires Simulates(s) && |s.levels| > 1
    ensures Simulates(Perform(s, AbortLevel))
  {
    var n := |s.levels|;
    var top := s.levels[n - 1];
    AbortFacts(s.levels, s.entries, top.subid);
    var s' := Perform(s, AbortLevel);
    forall k, u | 0 <= k < n - 1
      ensures PairAt(s'.entries, u, s.levels[k].subid) == PairAt(s.entries, u, s.levels[k].subid)
    {
      AbortPairAt(s.entries, top.subid, u, s.levels[k].subid);
    }
    assert forall e :: e in s'.entries ==> Depth(s'.levels, e.subid) == Depth(s.levels, e.subid);
  }

  lemma {:induction false} CompactFacts(levels: seq<Level>, es: seq<Entry>, n: nat)
    requires n <= |es|
    requires WeaklyNested(levels, es) && InOpenLevels(levels, es)
    ensures Nested(levels, CompactTo(es, n))
    ensures forall e :: e in CompactTo(es, n) ==>
              exists i :: 0 <= i < n && es[i] == e && !Superseded(es, i)
  {
    if n > 0 {
      CompactFacts(levels, es, n - 1);
      var r0, r := CompactTo(es, n - 1), CompactTo(es, n);
      forall i, j | 0 <= i < j < |r| && r[i].user == r[j].user
        ensures Depth(levels, r[i].subid) < Depth(levels, r[j].subid)
      {
        if j == |r0| {
          assert r[i] in r0;
          var m :| 0 <= m < n - 1 && es[m] == r[i] && !Superseded(es, m);
          assert !Matches(es[n - 1], es[m].user, es[m].subid);
        }
      }
    }
  }

  /** Compaction keeps exactly the latest entry of every user at every level. */
  lemma {:induction false} CompactPairAt(es: seq<Entry>, n: nat, u: Name, id: nat)
    requires n <= |es|
    ensures PairAt(CompactTo(es, n), u, id) == PairWithin(es, LatestMatch(es, u, id), n)
  {
    if n > 0 {
      CompactPairAt(es, n - 1, u, id);
      if LatestMatch(es, u, id) == n - 1 {
        CompactKeepsLatest(es, n, u, id);
      } else {
        CompactKeepsPair(es, n, u, id);
      }
    }
  }

  /** The pair of entry `i`, if it is among the first `n`. */
  function PairWithin(es: seq<Entry>, i: int, n: nat): Option<Pair>
    requires i < |es|
  {
    if 0 <= i < n then Some(es[i].pair) else None
  }

  lemma CompactKeepsLatest(es: seq<Entry>, n: nat, u: Name, id: nat)
    requires 0 < n <= |es| && LatestMatch(es, u, id) == n - 1
    ensures PairAt(CompactTo(es, n), u, id) == Some(es[n - 1].pair)
  {
    LatestIsKept(es, u, id);
    PairAtSnoc(CompactTo(es, n - 1), es[n - 1], u, id);
  }

  lemma CompactKeepsPair(es: seq<Entry>, n: nat, u: Name, id: nat)
    requires 0 < n <= |es| && LatestMatch(es, u, id) != n - 1
    ensures PairAt(CompactTo(es, n), u, id) == PairAt(CompactTo(es, n - 1), u, id)
  {
    CompactMatches(es, n - 1, u, id);
    if !Superseded(es, n - 1) {
      PairAtSnoc(CompactTo(es, n - 1), es[n - 1], u, id);
    }
  }

  lemma LatestIsKept(es: seq<Entry>, u: Name, id: nat)
    requires LatestMatch(es, u, id) >= 0
    ensures !Superseded(es, LatestMatch(es, u, id))
  {
  }

  /** An entry before the latest match of its kind is superseded by it. */
  lemma CompactMatches(es: seq<Entry>, i: nat, u: Name, id: nat)
    requires i < |es| && i != LatestMatch(es, u, id)
    ensures Superseded(es, i) || !Matches(es[i], u, id)
  {
    var m := LatestMatch(es, u, id);
    if Matches(es[i], u, id) {
      assert Matches(es[m], es[i].user, es[i].subid);
    }
  }

  lemma {:induction false} ReparentPairAt(levels: seq<Level>, es: seq<Entry>, u: Name, id: nat)
    requires |levels| > 1 && DistinctIds(levels) && Nested(levels, es)
    ensures var n := |levels|;
            var top, parent := levels[n - 1].subid, levels[n - 2].subid;
            PairAt(Reparent(es, top, parent), u, id) ==
              if id == top then None
              else if id == parent && PairAt(es, u, top).Some? then PairAt(es, u, top)
              else PairAt(es, u, id)
  {
    var n := |levels|;
    var top, parent := levels[n - 1].subid, levels[n - 2].subid;
    if es != [] {
      var init, x := es[..|es| - 1], es[|es| - 1];
      ReparentPairAt(levels, init, u, id);
      var r0 := Reparent(init, top, parent);
      PairAtSnoc(r0, if x.subid == top then x.(subid := parent) else x, u, id);
      if Matches(x, u, parent) {
        DepthOfLevel(levels, n - 1);
        DepthOfLevel(levels, n - 2);
        PairAtIndex(init, u, top);
        assert LatestMatch(init, u, top) < 0;
      }
    }
  }

  lemma {:induction false} LastOfConcat(a: seq<(Name, Pair)>, b: seq<(Name, Pair)>, u: Name)
    ensures LastOf(a + b, u) == if LastOf(b, u).Some? then LastOf(b, u) else LastOf(a, u)
  {
    if b == [] {
      assert a + b == a;
    } else {
      LastOfConcat(a, b[..|b| - 1], u);
      assert (a + b)[..|a + b| - 1] == a + b[..|b| - 1];
    }
  }

  lemma ReleaseNests(s: Staging)
    requires Simulates(s) && |s.levels| > 1
    ensures var s' := Perform(s, CommitLevel);
            Nested(s'.levels, s'.entries) && InOpenLevels(s'.levels, s'.entries)
  {
    var n := |s.levels|;
    var top, parent := s.levels[n - 1], s.levels[n - 2];
    var s' := Perform(s, CommitLevel);
    var r := Reparent(s.entries, top.subid, parent.subid);
    DepthOfLevel(s.levels, n - 1);
    DepthOfLevel(s.levels, n - 2);
    forall i | 0 <= i < |r|
      ensures Depth(s'.levels, r[i].subid)
           == if s.entries[i].subid == top.subid then n - 2 else Depth(s.levels, s.entries[i].subid)
      ensures 0 <= Depth(s.levels, s.entries[i].subid) < n
    {
      DepthSameIds(s'.levels, s.levels[..n - 1], r[i].subid);
      DepthOfLevel(s.levels[..n - 1], n - 2);
    }
    CompactFacts(s'.levels, r, |r|);
  }

  lemma ReleaseSimulates(s: Staging)
    requires Simulates(s) && |s.levels| > 1
    ensures Simulates(Perform(s, CommitLevel))
  {
    var s' := Perform(s, CommitLevel);
    ReleaseNests(s);
    forall k, u | 0 <= k < |s'.levels|
      ensures PairAt(s'.entries, u, s'.levels[k].subid) == LastOf(s'.levels[k].log, u)
    {
      ReleaseRepresents(s, k, u);
    }
  }

  /** Compaction changes no user's pair at any level. */
  lemma CompactKeepsPairs(es: seq<Entry>, u: Name, id: nat)
    ensures PairAt(Compact(es), u, id) == PairAt(es, u, id)
  {
    CompactPairAt(es, |es|, u, id);
    PairAtIndex(es, u, id);
  }

  lemma ReleaseRepresents(s: Staging, k: nat, u: Name)
    requires 1 < |s.levels| && k < |s.levels| - 1
    requires DistinctIds(s.levels) && Nested(s.levels, s.entries)
    requires forall i :: 0 <= i < |s.levels| ==>
               PairAt(s.entries, u, s.levels[i].subid) == LastOf(s.levels[i].log, u)
    ensures var s' := Perform(s, CommitLevel);
            PairAt(s'.entries, u, s'.levels[k].subid) == LastOf(s'.levels[k].log, u)
  {
    var n := |s.levels|;
    var top, parent := s.levels[n - 1], s.levels[n - 2];
    var r := Reparent(s.entries, top.subid, parent.subid);
    CompactKeepsPairs(r, u, s.levels[k].subid);
    ReparentPairAt(s.levels, s.entries, u, s.levels[k].subid);
    LastOfConcat(parent.log, top.log, u);
  }

  lemma StartSimulates(s: Staging, id: nat)
    requires Simulates(s) && FreshId(s.levels, id)
    ensures Simulates(Perform(s, StartLevel(id)))
  {
    var s' := Perform(s, StartLevel(id));
    assert s'.levels[..|s.levels|] == s.levels;
    forall i | 0 <= i < |s.entries|
      ensures Depth(s'.levels, s.entries[i].subid) == Depth(s.levels, s.entries[i].subid)
      ensures s.entries[i].subid != id
    {
      assert s.entries[i] in s.entries;
    }
    forall u ensures PairAt(s.entries, u, id) == None {
      PairAtIndex(s.entries, u, id);
    }
  }

  lemma PerformSimulates(s: Staging, op: StageOp)
    requires Simulates(s) && Allowed(s, op)
    ensures Simulates(Perform(s, op))
  {
    match op
    case StageCall(u, p) => StageSimulates(s, u, p);
    case StartLevel(id) => StartSimulates(s, id);
    case CommitLevel => ReleaseSimulates(s);
    case AbortLevel => AbortSimulates(s);
  }

  /** Every entry of `u` sits below level `k`. */
  ghost predicate OnlyBelow(s: Staging, u: Name, k: int) {
    forall i :: 0 <= i < |s.entries| && s.entries[i].user == u ==>
      Depth(s.levels, s.entries[i].subid) < k
  }

  lemma ResolvedIs(es: seq<Entry>, u: Name, i: int)
    requires -1 <= i < |es|
    requires i >= 0 ==> es[i].user == u
    requires forall j :: i < j < |es| ==> es[j].user != u
    ensures Resolved(es, u) == if i >= 0 then Some(es[i].pair) else None
  {
    if es != [] && i < |es| - 1 {
      ResolvedIs(es[..|es| - 1], u, i);
    }
  }

  lemma NotAtLevel(s: Staging, u: Name, k: nat)
    requires DistinctIds(s.levels) && 0 < k <= |s.levels| && OnlyBelow(s, u, k)
    requires LatestMatch(s.entries, u, s.levels[k - 1].subid) < 0
    ensures OnlyBelow(s, u, k - 1)
  {
    forall j | 0 <= j < |s.entries| && s.entries[j].user == u
      ensures Depth(s.levels, s.entries[j].subid) < k - 1
    {
      assert !Matches(s.entries[j], u, s.levels[k - 1].subid);
    }
  }

  lemma AtLevelIsLast(s: Staging, u: Name, k: nat)
    requires DistinctIds(s.levels) && 0 < k <= |s.levels| && OnlyBelow(s, u, k)
    requires Nested(s.levels, s.entries)
    requires LatestMatch(s.entries, u, s.levels[k - 1].subid) >= 0
    ensures Resolved(s.entries, u) == Some(s.entries[LatestMatch(s.entries, u, s.levels[k - 1].subid)].pair)
  {
    DepthOfLevel(s.levels, k - 1);
    ResolvedIs(s.entries, u, LatestMatch(s.entries, u, s.levels[k - 1].subid));
  }

  lemma {:induction false} ResolvedBelow(s: Staging, u: Name, k: nat)
    requires Simulates(s) && k <= |s.levels| && OnlyBelow(s, u, k)
    ensures Resolved(s.entries, u) == LastOf(Survivors(s.levels[..k]), u)
    decreases k
  {
    if k == 0 {
      ResolvedIs(s.entries, u, -1);
    } else {
      var l := s.levels[k - 1];
      assert s.levels[..k][..k - 1] == s.levels[..k - 1];
      LastOfConcat(Survivors(s.levels[..k - 1]), l.log, u);
      var i := LatestMatch(s.entries, u, l.subid);
      PairAtIndex(s.entries, u, l.subid);
      assert PairAt(s.entries, u, l.subid) == LastOf(l.log, u);
      if i >= 0 {
        AtLevelIsLast(s, u, k);
      } else {
        NotAtLevel(s, u, k);
        ResolvedBelow(s, u, k - 1);
      }
    }
  }

  /** Runs of allowed operations. */
  ghost predicate Performs(s: Staging, ops: seq<StageOp>, s': Staging)
    requires s.levels != []
    decreases |ops|
  {
    if ops == [] then s == s'
    else Allowed(s, ops[0]) && Performs(Perform(s, ops[0]), ops[1..], s')
  }

  function Begin(subid: nat): Staging {
    Staging([Level(subid, [])], [])
  }

  lemma {:induction false} RunsSimulate(s: Staging, ops: seq<StageOp>, s': Staging)
    requires Simulates(s) && Performs(s, ops, s')
    ensures Simulates(s')
    decreases |ops|
  {
    if ops != [] {
      PerformSimulates(s, ops[0]);
      RunsSimulate(Perform(s, ops[0]), ops[1..], s');
    }
  }

  /** For every well-nested run, the pair the commit callback applies for a user
      is that of the last stage call no rollback discarded (and none if there
      is none); once only the top level is open, each user has one entry. */
  lemma {:induction false} CommitAppliesLastSurvivor(subid: nat, ops: seq<StageOp>, s: Staging, u: Name)
    requires Performs(Begin(subid), ops, s)
    ensures Resolved(s.entries, u) == LastOf(Survivors(s.levels), u)
    ensures |s.levels| == 1 ==>
              forall i, j :: 0 <= i < j < |s.entries| ==> s.entries[i].user != s.entries[j].user
  {
    RunsSimulate(Begin(subid), ops, s);
    assert s.levels[..|s.levels|] == s.levels;
    ResolvedBelow(s, u, |s.levels|);
  }

  // ---------------------------------------------------------------------
  // Implementation: the fixed array
  // ---------------------------------------------------------------------

  function Unwrap(s: seq<Option<Entry>>): (r: seq<Entry>)
    requires forall i :: 0 <= i < |s| ==> s[i].Some?
    ensures |r| == |s| && forall i :: 0 <= i < |s| ==> r[i] == s[i].value
  {
    seq(|s|, i requires 0 <= i < |s| => s[i].value)
  }

  /** What the filtering loop of `OnSubAbort` has kept of the first `n` entries. */
  ghost function AbortTo(es: seq<Entry>, n: nat, subid: nat): seq<Entry>
    requires n <= |es|
  {
    if n == 0 then []
    else if es[n - 1].subid == subid then AbortTo(es, n - 1, subid)
    else AbortTo(es, n - 1, subid) + [es[n - 1]]
  }

  lemma {:induction false} AbortToIsAbort(es: seq<Entry>, n: nat, subid: nat)
    requires n <= |es|
    ensures AbortTo(es, n, subid) == Abort(es[..n], subid)
  {
    if n > 0 {
      AbortToIsAbort(es, n - 1, subid);
      assert es[..n][..n - 1] == es[..n - 1];
    }
  }

  lemma UnwrapSnoc(s: seq<Option<Entry>>, x: Entry)
    requires forall i :: 0 <= i < |s| ==> s[i].Some?
    ensures Unwrap(s + [Some(x)]) == Unwrap(s) + [x]
  {
  }

  class PendingState {
    const entries: array<Option<Entry>>
    var len: nat
    var ack: Option<PendingAck>

    ghost predicate Valid()
      reads this, entries
    {
      && entries.Length == MAX_PENDING_OPS
      && len <= MAX_PENDING_OPS
      && (forall i :: 0 <= i < len ==> entries[i].Some?)
      && (forall i :: len <= i < MAX_PENDING_OPS ==> entries[i].None?)
    }

    /** The live entries, in staging order. */
    ghost function View(): seq<Entry>
      requires Valid()
      reads this, entries
    {
      Unwrap(entries[..len])
    }

    constructor ()
      ensures Valid() && fresh(entries)
      ensures View() == [] && ack == None
    {
      entries := new Option<Entry>[MAX_PENDING_OPS](_ => None);
      len := 0;
      ack := None;
    }

    /** True exactly when there is nothing staged, acknowledgement included. */
    method IsEmpty() returns (empty: bool)
      requires Valid()
      ensures empty <==> View() == [] && ack == None
    {
      empty := len == 0 && ack == None;
    }

    method Reset()
      requires Valid()
      modifies this, entries
      ensures Valid() && View() == [] && ack == None
    {
      for i := 0 to MAX_PENDING_OPS
        invariant len == old(len)
        invariant forall j :: 0 <= j < i ==> entries[j] == None
      {
        entries[i] := None;
      }
      len := 0;
      ack := None;
    }

    /** Stages one pair, or refuses without changing anything when the user has
        no entry at this level and the array is full. */
    method StageEntry(user: Name, pair: Pair, subid: nat) returns (ok: bool)
      requires Valid()
      modifies this`len, entries
      ensures Valid() && ack == old(ack)
      ensures ok <==> HasRoom(old(View()), user, subid)
      ensures View() == if ok then Stage(old(View()), user, pair, subid) else old(View())
    {
      ghost var es := View();
      var idx := len;
      while idx > 0
        invariant 0 <= idx <= len == |es|
        invariant Valid() && View() == es
        invariant forall j :: idx <= j < len ==> !Matches(es[j], user, subid)
      {
        idx := idx - 1;
        var entry := entries[idx].value;
        if entry.subid == subid && entry.user == user {
          entries[idx] := Some(Entry(user, pair, subid));
          assert LatestMatch(es, user, subid) == idx;
          assert View() == es[idx := Entry(user, pair, subid)];
          return true;
        }
      }
      if len >= MAX_PENDING_OPS {
        return false;
      }
      entries[len] := Some(Entry(user, pair, subid));
      len := len + 1;
      assert View() == es + [Entry(user, pair, subid)];
      return true;
    }

    /** Closes the gap the two filtering loops leave behind `write`. */
    method TruncateTo(write: nat)
      requires entries.Length == MAX_PENDING_OPS && write <= len <= MAX_PENDING_OPS
      requires forall i :: 0 <= i < write ==> entries[i].Some?
      requires forall i :: len <= i < MAX_PENDING_OPS ==> entries[i].None?
      modifies this`len, entries
      ensures Valid() && len == write && entries[..write] == old(entries[..write])
    {
      for i := write to len
        invariant len == old(len)
        invariant forall j :: write <= j < i ==> entries[j] == None
        invariant forall j :: 0 <= j < write || len <= j < MAX_PENDING_OPS ==>
                    entries[j] == old(entries[j])
      {
        entries[i] := None;
      }
      len := write;
    }

    /** Moves the entry at `read` down to the end of the kept prefix. */
    method KeepEntry(write: nat, read: nat)
      requires entries.Length == MAX_PENDING_OPS && write <= read < MAX_PENDING_OPS
      requires forall i :: 0 <= i < write ==> entries[i].Some?
      requires entries[read].Some?
      modifies entries
      ensures forall i :: 0 <= i < MAX_PENDING_OPS && i != write ==> entries[i] == old(entries[i])
      ensures entries[write].Some?
      ensures Unwrap(entries[..write + 1])
           == old(Unwrap(entries[..write])) + [old(entries[read].value)]
    {
      ghost var kept, entry := entries[..write], entries[read].value;
      entries[write] := entries[read];
      assert entries[..write + 1] == kept + [Some(entry)];
      UnwrapSnoc(kept, entry);
    }

    /** The filtering loop of `OnSubAbort`. */
    method DropLevel(mySubid: nat)
      requires Valid()
      modifies this`len, entries
      ensures Valid() && View() == Abort(old(View()), mySubid)
    {
      ghost var es := View();
      var write := 0;
      for read := 0 to len
        invariant write <= read <= len == old(len)
        invariant forall j :: 0 <= j < write ==> entries[j].Some?
        invariant forall j :: read <= j < MAX_PENDING_OPS ==> entries[j] == old(entries[j])
        invariant Unwrap(entries[..write]) == AbortTo(es, read, mySubid)
      {
        var entry := entries[read].value;
        if entry.subid != mySubid {
          KeepEntry(write, read);
          write := write + 1;
        }
      }
      AbortToIsAbort(es, len, mySubid);
      assert es[..len] == es;
      TruncateTo(write);
    }

    method OnSubAbort(mySubid: nat)
      requires Valid()
      modifies this, entries
      ensures Valid() && View() == Abort(old(View()), mySubid)
      ensures ack == if old(ack).Some? && old(ack).value.subid == mySubid then None else old(ack)
    {
      if ack.Some? && ack.value.subid == mySubid {
        ack := None;
      }
      DropLevel(mySubid);
    }

    /** The search loop of `CompactDuplicates`: is there a later entry for the
        same user at the same level? `es` is what was staged before compacting. */
    method IsSuperseded(read: nat, ghost es: seq<Entry>) returns (superseded: bool)
      requires entries.Length == MAX_PENDING_OPS && read < len == |es| <= MAX_PENDING_OPS
      requires forall j :: read <= j < len ==> entries[j] == Some(es[j])
      ensures superseded == Superseded(es, read)
    {
      var entry := entries[read].value;
      superseded := false;
      for later := read + 1 to len
        invariant !superseded
        invariant forall j :: read < j < later ==> !Matches(es[j], entry.user, entry.subid)
      {
        var other := entries[later].value;
        if other.subid == entry.subid && other.user == entry.user {
          assert Matches(es[later], entry.user, entry.subid);
          return true;
        }
      }
    }

    method CompactDuplicates()
      requires Valid()
      modifies this`len, entries
      ensures Valid() && View() == Compact(old(View()))
    {
      ghost var es := View();
      var write := 0;
      for read := 0 to len
        invariant write <= read <= len == old(len)
        invariant forall j :: 0 <= j < write ==> entries[j].Some?
        invariant forall j :: read <= j < MAX_PENDING_OPS ==> entries[j] == old(entries[j])
        invariant Unwrap(entries[..write]) == CompactTo(es, read)
      {
        var superseded := IsSuperseded(read, es);
        if !superseded {
          KeepEntry(write, read);
          write := write + 1;
        }
      }
      TruncateTo(write);
    }

    method OnSubCommit(mySubid: nat, parentSubid: nat)
      requires Valid()
      modifies this, entries
      ensures Valid() && View() == Release(old(View()), mySubid, parentSubid)
      ensures ack == if old(ack).Some? && old(ack).value.subid == mySubid
                     then Some(old(ack).value.(subid := parentSubid)) else old(ack)
    {
      ghost var es := View();
      if ack.Some? && ack.value.subid == mySubid {
        ack := Some(ack.value.(subid := parentSubid));
      }
      ghost var newAck := ack;
      for i := 0 to len
        invariant Valid() && len == old(len) && ack == newAck
        invariant forall j :: 0 <= j < len ==>
                    entries[j].value == if j < i && es[j].subid == mySubid
                                        then es[j].(subid := parentSubid) else es[j]
      {
        var entry := entries[i].value;
        if entry.subid == mySubid {
          entries[i] := Some(entry.(subid := parentSubid));
        }
      }
      assert View() == Reparent(es, mySubid, parentSubid);
      CompactDuplicates();
    }

    /** Stages the acknowledgement of the one outstanding claim. */
    method StageAck(token: EventRing.ClaimToken, subid: nat)
      requires Valid()
      modifies this`ack
      ensures Valid() && View() == old(View()) && ack == Some(PendingAck(token, subid))
    {
      ack := Some(PendingAck(token, subid));
    }
  }
}
