/** Putting runs of the system together. */
module SystemRuns {
  import opened AuthSystem

  ghost predicate Next(s: System, s': System) {
    exists a :: Enabled(s, a) && Step(s, a) == s'
  }

  /** The states a run goes through. */
  ghost predicate Trace(t: seq<System>) {
    |t| > 0 && forall i :: 0 <= i < |t| - 1 ==> Next(t[i], t[i + 1])
  }

  /** Some run leads from `s` to `s'`. */
  ghost predicate Leads(s: System, s': System) {
    exists t :: Trace(t) && t[0] == s && t[|t| - 1] == s'
  }

  lemma LeadsByStep(s: System, a: SysAction)
    requires Enabled(s, a)
    ensures Leads(s, Step(s, a))
  {
    var t := [s, Step(s, a)];
    assert Next(t[0], t[1]);
    assert Trace(t);
  }

  lemma LeadsOn(s: System, s': System, s'': System)
    requires Leads(s, s') && Leads(s', s'')
    ensures Leads(s, s'')
  {
    var t :| Trace(t) && t[0] == s && t[|t| - 1] == s';
    var r :| Trace(r) && r[0] == s' && r[|r| - 1] == s'';
    var all := t + r[1..];
    assert r == [s'] + r[1..];
    forall i | 0 <= i < |all| - 1 ensures Next(all[i], all[i + 1]) {
      if i >= |t| - 1 {
        assert all[i] == r[i - (|t| - 1)] && all[i + 1] == r[i + 1 - (|t| - 1)];
      }
    }
    assert Trace(all);
  }

  lemma NextIsStep(s: System, s': System) returns (a: SysAction)
    requires Next(s, s')
    ensures Enabled(s, a) && Step(s, a) == s'
  {
    a :| Enabled(s, a) && Step(s, a) == s';
  }

  lemma ReachesCons(s: System, a: SysAction, rest: seq<SysAction>, s': System)
    requires Enabled(s, a) && Reaches(Step(s, a), rest, s')
    ensures Reaches(s, [a] + rest, s')
  {
    assert ([a] + rest)[1..] == rest;
  }

  lemma {:induction false} TraceIsRun(t: seq<System>) returns (acts: seq<SysAction>)
    requires Trace(t)
    ensures Reaches(t[0], acts, t[|t| - 1])
  {
    if |t| == 1 {
      acts := [];
    } else {
      var a := NextIsStep(t[0], t[1]);
      var rest := TraceIsRun(t[1..]);
      acts := [a] + rest;
      ReachesCons(t[0], a, rest, t[|t| - 1]);
    }
  }

  lemma LeadsByRun(s: System, s': System) returns (acts: seq<SysAction>)
    requires Leads(s, s')
    ensures Reaches(s, acts, s')
  {
    var t :| Trace(t) && t[0] == s && t[|t| - 1] == s';
    acts := TraceIsRun(t);
  }
}
