/** Continuations of the system without backend transactions. */
module OwnRuns {
  import opened AuthTypes
  import opened LoginTables
  import opened AuthSystem
  import P = EventProtocol

  /** The policy in force for each user, and who is exempt. */
  datatype World = World(policy: Name -> Policy, exempt: Name -> bool)

  ghost predicate WorldOk(w: World) {
    forall u :: w.policy(u).threshold <= INT4_MAX
  }

  /** Anything but a backend transaction; the worker takes policy and exemption
      from the world. */
  ghost predicate OwnStep(s: System, a: SysAction, w: World)
    requires Enabled(s, a)
  {
    && !a.BackendCommit?
    && (a.WorkerCommit? ==>
          a.policy == w.policy(P.PendingEvent(s.p).user) && a.exempt == w.exempt(P.PendingEvent(s.p).user))
  }

  ghost predicate OwnRun(s: System, acts: seq<SysAction>, s': System, w: World)
    decreases |acts|
  {
    if acts == [] then s == s'
    else Enabled(s, acts[0]) && OwnStep(s, acts[0], w) && OwnRun(Step(s, acts[0]), acts[1..], s', w)
  }

  ghost predicate OwnLeads(s: System, s': System, w: World) {
    exists acts :: OwnRun(s, acts, s', w)
  }

  lemma OwnLeadsByStep(s: System, a: SysAction, w: World)
    requires Enabled(s, a) && OwnStep(s, a, w)
    ensures OwnLeads(s, Step(s, a), w)
  {
    assert [a][1..] == [];
    assert OwnRun(Step(s, a), [], Step(s, a), w);
    assert OwnRun(s, [a], Step(s, a), w);
  }

  lemma OwnLeadsNowhere(s: System, w: World)
    ensures OwnLeads(s, s, w)
  {
    assert OwnRun(s, [], s, w);
  }

  lemma OwnRunHead(s: System, acts: seq<SysAction>, s': System, w: World)
    requires acts != [] && OwnRun(s, acts, s', w)
    ensures Enabled(s, acts[0]) && OwnStep(s, acts[0], w) && OwnRun(Step(s, acts[0]), acts[1..], s', w)
  {
  }

  lemma OwnRunTail(s: System, acts: seq<SysAction>, s': System, w: World)
    requires acts != [] && Enabled(s, acts[0]) && OwnStep(s, acts[0], w) && OwnRun(Step(s, acts[0]), acts[1..], s', w)
    ensures OwnRun(s, acts, s', w)
  {
  }

  lemma {:induction false} OwnRunConcat(s: System, a: seq<SysAction>, s': System, b: seq<SysAction>, s'': System, w: World)
    requires OwnRun(s, a, s', w) && OwnRun(s', b, s'', w)
    ensures OwnRun(s, a + b, s'', w)
    decreases |a|
  {
    if a == [] {
      assert a + b == b;
      return;
    }
    OwnRunHead(s, a, s', w);
    OwnRunConcat(Step(s, a[0]), a[1..], s', b, s'', w);
    assert (a + b)[0] == a[0] && (a + b)[1..] == a[1..] + b;
    OwnRunTail(s, a + b, s'', w);
  }

  lemma OwnLeadsOn(s: System, s': System, s'': System, w: World)
    requires OwnLeads(s, s', w) && OwnLeads(s', s'', w)
    ensures OwnLeads(s, s'', w)
  {
    var a :| OwnRun(s, a, s', w);
    var b :| OwnRun(s', b, s'', w);
    OwnRunConcat(s, a, s', b, s'', w);
  }
}
