/** The failure marker beside the system: every append that fails stamps the
    marker, and the passes of the hydration loop are the system's hydrations.
 */
module SystemHealth {
  import opened AuthTypes
  import opened AuthSystem
  import opened WorkerHealth

  // ---------------------------------------------------------------------
  // The marker and when things happened to it
  // ---------------------------------------------------------------------

  /** The read of a clearance, and the caches it required. */
  datatype Clearance = Clearance(readAt: nat, needLock: bool, needExpiry: bool)

  /** `now` counts the steps since the last start. `failedAt` holds the step of
      each recorded failure, `appendAt` that of the last failed append, `lockAt`
      and `expiryAt` those of the last rebuilds, `readAt` that of the read of the
      pass in progress, and `cleared` is the last clearance. */
  datatype Chart = Chart(
    health: Health,
    now: nat,
    failedAt: seq<nat>,
    appendAt: nat,
    lockAt: nat,
    expiryAt: nat,
    readAt: nat,
    cleared: Clearance)

  const FRESH_CHART: Chart := Chart(HEALTHY, 0, [], 0, 0, 0, 0, Clearance(0, false, false))

  datatype Mark =
    | Restarted
    | Unmarked
    | Failed(clock: int, append: bool)
    | Passed(step: HealthStep)

  predicate MarkEnabled(c: Chart, m: Mark) {
    m.Passed? ==> !m.step.Failure? && HealthEnabled(c.health, m.step)
  }

  function Charted(c: Chart, m: Mark): Chart
    requires MarkEnabled(c, m)
  {
    var now := c.now + 1;
    match m
    case Restarted => FRESH_CHART
    case Unmarked => c.(now := now)
    case Failed(clock, append) =>
      c.(now := now, health := HealthNext(c.health, Failure(clock)), failedAt := c.failedAt + [now],
         appendAt := if append then now else c.appendAt)
    case Passed(step) =>
      var c1 := c.(now := now, health := HealthNext(c.health, step));
      match step
      case BeginAttempt(_, _) => c1.(readAt := now)
      case LockRebuilt(ok) => if ok then c1.(lockAt := now) else c1
      case ExpiryRebuilt(ok) => if ok then c1.(expiryAt := now) else c1
      case FinishAttempt(clock) =>
        var a := c.health.attempt.value;
        if Clears(c.health, a, clock) then c1.(cleared := Clearance(c.readAt, a.needLock, a.needExpiry)) else c1
      case _ => c1
  }

  /** What a pass has rebuilt was rebuilt after its read, and the failures it
      counted happened before. */
  ghost predicate PassInv(c: Chart, a: Attempt) {
    && (forall i :: 0 <= i < |c.failedAt| && i < a.readAt ==> c.failedAt[i] < c.readAt)
    && (a.lock == Some(true) ==> c.readAt < c.lockAt)
    && (a.expiry == Some(true) ==> c.readAt < c.expiryAt)
  }

  ghost predicate AppendsCharted(c: Chart) {
    c.appendAt > 0 ==> exists i :: 0 <= i < |c.failedAt| && c.failedAt[i] == c.appendAt
  }

  ghost predicate ChartInv(c: Chart) {
    && MarkerInv(c.health) && ZeroMeansCovered(c.health)
    && |c.failedAt| == |c.health.failures| && AppendsCharted(c)
    && (forall i :: 0 <= i < |c.failedAt| ==> c.failedAt[i] <= c.now)
    && c.readAt <= c.now && c.lockAt <= c.now && c.expiryAt <= c.now
    && (forall i :: 0 <= i < |c.failedAt| && i < c.health.covered ==> c.failedAt[i] < c.cleared.readAt)
    && (c.health.attempt.Some? ==> PassInv(c, c.health.attempt.value))
    && (c.cleared.needLock ==> c.cleared.readAt < c.lockAt)
    && (c.cleared.needExpiry ==> c.cleared.readAt < c.expiryAt)
  }

  lemma FailureKeepsInv(c: Chart, clock: int, append: bool)
    requires ChartInv(c)
    ensures ChartInv(Charted(c, Failed(clock, append)))
  {
    StepKeepsMarkerInv(c.health, Failure(clock));
    var c' := Charted(c, Failed(clock, append));
    assert c'.failedAt[|c.failedAt|] == c'.now;
    assert forall i :: 0 <= i < |c.failedAt| ==> c'.failedAt[i] == c.failedAt[i];
    if c.appendAt > 0 {
      var i :| 0 <= i < |c.failedAt| && c.failedAt[i] == c.appendAt;
      assert c'.failedAt[i] == c.appendAt;
    }
  }

  lemma BeginKeepsInv(c: Chart, step: HealthStep)
    requires ChartInv(c) && MarkEnabled(c, Passed(step)) && step.BeginAttempt?
    ensures ChartInv(Charted(c, Passed(step)))
  {
    StepKeepsMarkerInv(c.health, step);
  }

  lemma FinishKeepsInv(c: Chart, step: HealthStep)
    requires ChartInv(c) && MarkEnabled(c, Passed(step)) && step.FinishAttempt?
    ensures ChartInv(Charted(c, Passed(step)))
  {
    StepKeepsMarkerInv(c.health, step);
  }

  lemma PassKeepsInv(c: Chart, step: HealthStep)
    requires ChartInv(c) && MarkEnabled(c, Passed(step))
    ensures ChartInv(Charted(c, Passed(step)))
  {
    if step.BeginAttempt? {
      BeginKeepsInv(c, step);
    } else if step.FinishAttempt? {
      FinishKeepsInv(c, step);
    } else {
      StepKeepsMarkerInv(c.health, step);
    }
  }

  lemma ChartedKeepsInv(c: Chart, m: Mark)
    requires ChartInv(c) && MarkEnabled(c, m)
    ensures ChartInv(Charted(c, m))
  {
    match m
    case Failed(clock, append) => FailureKeepsInv(c, clock, append);
    case Passed(step) => PassKeepsInv(c, step);
    case _ =>
  }

  // ---------------------------------------------------------------------
  // Beside the system
  // ---------------------------------------------------------------------

  datatype Joint = Joint(sys: System, chart: Chart)

  datatype JointStep =
    | Act(action: SysAction)                            // a step of the system
    | OtherFailure                                      // a failure of another kind
    | BeginPass(needLock: bool, needExpiry: bool)
    | BypassPass(ok: bool)
    | FinishPass

  /** The append of a login did not become durable. */
  predicate FailsAppend(a: SysAction) {
    (a.RecordLogin? || a.GraceLogin?) && !a.result.Synced?
  }

  /** What a step means to the marker. */
  function MarkOf(j: Joint, step: JointStep): Mark {
    match step
    case Act(a) =>
      if a.Crash? then Restarted
      else if FailsAppend(a) then Failed(j.sys.clock, true)
      else if a.HydrateLock? || a.HydrateLockFails? then Passed(LockRebuilt(a.HydrateLock?))
      else if a.HydrateExpiryCache? || a.HydrateExpiryFails? then Passed(ExpiryRebuilt(a.HydrateExpiryCache?))
      else Unmarked
    case OtherFailure => Failed(j.sys.clock, false)
    case BeginPass(l, x) => Passed(BeginAttempt(l, x))
    case BypassPass(ok) => Passed(BypassRefreshed(ok))
    case FinishPass => Passed(FinishAttempt(j.sys.clock))
  }

  /** Hydrations happen inside a pass, in its order; consuming starts after one. */
  ghost predicate JointEnabled(j: Joint, step: JointStep) {
    && MarkEnabled(j.chart, MarkOf(j, step))
    && match step
       case Act(a) => Enabled(j.sys, a) && (a.StartConsuming? ==> j.chart.health.attempt.None?)
       case BeginPass(_, _) => j.sys.p.worker.Hydrating?
       case _ => true
  }

  ghost function JointNext(j: Joint, step: JointStep): Joint
    requires JointEnabled(j, step)
  {
    Joint(if step.Act? then Step(j.sys, step.action) else j.sys, Charted(j.chart, MarkOf(j, step)))
  }

  ghost predicate JointRun(j: Joint, steps: seq<JointStep>, j': Joint)
    decreases |steps|
  {
    if steps == [] then j == j'
    else JointEnabled(j, steps[0]) && JointRun(JointNext(j, steps[0]), steps[1..], j')
  }

  /** A failed append stamps the marker with the clock; a hydration that succeeds
      counts as a rebuild of its cache, and one that fails does not. */
  lemma StepsAreCharted(j: Joint, a: SysAction)
    requires JointEnabled(j, Act(a))
    ensures var c, c' := j.chart, JointNext(j, Act(a)).chart;
            && ((a.RecordLogin? || a.GraceLogin?) && !a.result.Synced? ==>
                  && c'.appendAt == c'.now == c.now + 1 && c'.health.marker != 0
                  && (j.sys.clock != 0 ==> c'.health.marker == j.sys.clock))
            && (a.HydrateLock? ==> c'.lockAt == c'.now == c.now + 1)
            && (a.HydrateExpiryCache? ==> c'.expiryAt == c'.now == c.now + 1)
            && (!a.Crash? && !a.HydrateLock? ==> c'.lockAt == c.lockAt)
            && (!a.Crash? && !a.HydrateExpiryCache? ==> c'.expiryAt == c.expiryAt)
            && ((a.RecordLogin? || a.GraceLogin?) && a.result.Synced? ==> c'.health.marker == c.health.marker)
  {
  }

  lemma {:induction false} JointRunsKeepInv(j: Joint, steps: seq<JointStep>, j': Joint)
    requires ChartInv(j.chart) && JointRun(j, steps, j')
    ensures ChartInv(j'.chart)
    decreases |steps|
  {
    if steps != [] {
      ChartedKeepsInv(j.chart, MarkOf(j, steps[0]));
      JointRunsKeepInv(JointNext(j, steps[0]), steps[1..], j');
    }
  }

  /** In every run of the system beside the marker, with distinct stamps, a
      healthy marker means that since the last start no append has failed after
      the read of the last clearance, and that every cache that clearance
      required has been rebuilt after that read. */
  lemma {:induction false} HealthyMeansRebuilt(clock: int, steps: seq<JointStep>, j: Joint)
    requires JointRun(Joint(Init(clock), FRESH_CHART), steps, j)
    requires DistinctStamps(j.chart.health.failures) && j.chart.health.marker == 0
    ensures j.chart.appendAt == 0 || j.chart.appendAt < j.chart.cleared.readAt
    ensures forall i :: 0 <= i < |j.chart.failedAt| ==> j.chart.failedAt[i] < j.chart.cleared.readAt
    ensures j.chart.cleared.needLock ==> j.chart.cleared.readAt < j.chart.lockAt
    ensures j.chart.cleared.needExpiry ==> j.chart.cleared.readAt < j.chart.expiryAt
  {
    JointRunsKeepInv(Joint(Init(clock), FRESH_CHART), steps, j);
  }
}
