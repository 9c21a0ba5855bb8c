/** The durable-failure marker: backends that stamp it, and the hydration loop
    that may clear it with a compare-and-exchange.
 */
module WorkerHealth {
  import opened AuthTypes

  const DURABLE_QUIET_PERIOD_US: int := 5_000_000

  /** What a failure at `now` stores; zero is reserved for "healthy". */
  function Stamp(now: int): int {
    if now == 0 then 1 else now
  }

  class Marker {
    var durableDegradedUs: int

    method MarkDurableFailure(now: int)
      modifies this
      ensures durableDegradedUs == Stamp(now) && durableDegradedUs != 0
      ensures now != 0 ==> durableDegradedUs == now
    {
      durableDegradedUs := if now == 0 then 1 else now;
    }

    method DurableDegradedSince() returns (since: Option<int>)
      ensures since.None? <==> durableDegradedUs == 0
      ensures since.Some? ==> since.value == durableDegradedUs
    {
      since := if durableDegradedUs == 0 then None else Some(durableDegradedUs);
    }

    /** The compare-and-exchange: only the observed value is replaced. */
    method ClearDurableDegraded(observed: int) returns (cleared: bool)
      modifies this
      ensures cleared <==> old(durableDegradedUs) == observed
      ensures durableDegradedUs == if cleared then 0 else old(durableDegradedUs)
    {
      cleared := durableDegradedUs == observed;
      if cleared {
        durableDegradedUs := 0;
      }
    }
  }

  // ---------------------------------------------------------------------
  // Failing backends interleaved with the hydration loop
  // ---------------------------------------------------------------------

  /** One pass of `hydrate_caches_with_retry`: the marker read at its start, the
      switches, and how each rebuild went so far. `readAt` counts the failures
      recorded before the read. */
  datatype Attempt = Attempt(
    observed: Option<int>,
    readAt: nat,
    needLock: bool,
    needExpiry: bool,
    lock: Option<bool>,
    expiry: Option<bool>,
    bypass: Option<bool>)

  /** `failures` is the history of recorded stamps; `covered` counts those that
      the last successful clearance answered for. */
  datatype Health = Health(marker: int, failures: seq<int>, attempt: Option<Attempt>, covered: nat)

  const HEALTHY: Health := Health(0, [], None, 0)

  datatype HealthStep =
    | Failure(now: int)
    | BeginAttempt(needLock: bool, needExpiry: bool)
    | LockRebuilt(ok: bool)
    | ExpiryRebuilt(ok: bool)
    | BypassRefreshed(ok: bool)
    | FinishAttempt(now: int)

  predicate HealthEnabled(h: Health, a: HealthStep) {
    match a
    case Failure(_) => true
    case BeginAttempt(_, _) => h.attempt.None?
    case LockRebuilt(_) => h.attempt.Some? && h.attempt.value.lock.None?
    case ExpiryRebuilt(_) => h.attempt.Some? && h.attempt.value.lock.Some? && h.attempt.value.expiry.None?
    case BypassRefreshed(_) => h.attempt.Some? && h.attempt.value.expiry.Some? && h.attempt.value.bypass.None?
    case FinishAttempt(_) =>
      h.attempt.Some? && h.attempt.value.lock.Some? && h.attempt.value.expiry.Some? && h.attempt.value.bypass.Some?
  }

  /** Every cache an enabled feature consults was rebuilt in this pass. */
  predicate RequiredRebuilt(a: Attempt) {
    && (a.needLock ==> a.lock == Some(true))
    && (a.needExpiry ==> a.expiry == Some(true))
    && (a.needLock || a.needExpiry ==> a.bypass == Some(true))
  }

  /** `clear_durable_degradation_if_quiet` goes through. */
  predicate Clears(h: Health, a: Attempt, now: int) {
    && RequiredRebuilt(a) && a.observed.Some?
    && SaturatingSub(now, a.observed.value) >= DURABLE_QUIET_PERIOD_US
    && h.marker == a.observed.value
  }

  function HealthNext(h: Health, a: HealthStep): Health
    requires HealthEnabled(h, a)
  {
    match a
    case Failure(now) => h.(marker := Stamp(now), failures := h.failures + [Stamp(now)])
    case BeginAttempt(needLock, needExpiry) =>
      h.(attempt := Some(Attempt(if h.marker == 0 then None else Some(h.marker), |h.failures|,
                                 needLock, needExpiry, None, None, None)))
    case LockRebuilt(ok) => h.(attempt := Some(h.attempt.value.(lock := Some(ok))))
    case ExpiryRebuilt(ok) => h.(attempt := Some(h.attempt.value.(expiry := Some(ok))))
    case BypassRefreshed(ok) => h.(attempt := Some(h.attempt.value.(bypass := Some(ok))))
    case FinishAttempt(now) =>
      if Clears(h, h.attempt.value, now)
      then h.(marker := 0, attempt := None, covered := h.attempt.value.readAt)
      else h.(attempt := None)
  }

  ghost predicate HealthRun(h: Health, steps: seq<HealthStep>, h': Health)
    decreases |steps|
  {
    if steps == [] then h == h'
    else HealthEnabled(h, steps[0]) && HealthRun(HealthNext(h, steps[0]), steps[1..], h')
  }

  ghost predicate DistinctStamps(failures: seq<int>) {
    forall i, j :: 0 <= i < j < |failures| ==> failures[i] != failures[j]
  }

  /** A non-zero marker is the last recorded stamp, and the pass in progress
      observed what the marker was when it began. */
  ghost predicate MarkerInv(h: Health) {
    && h.covered <= |h.failures|
    && (forall i :: 0 <= i < |h.failures| ==> h.failures[i] != 0)
    && (h.marker != 0 ==> h.failures != [] && h.marker == h.failures[|h.failures| - 1])
    && (h.attempt.Some? ==>
          var a := h.attempt.value;
          && h.covered <= a.readAt <= |h.failures|
          && (a.readAt < |h.failures| ==> h.marker != 0)
          && (a.observed.Some? ==>
                h.marker != 0 && a.readAt > 0 && a.observed.value == h.failures[a.readAt - 1])
          && (a.observed.None? ==> a.readAt == h.covered || !DistinctStamps(h.failures)))
  }

  /** With distinct stamps, zero means every failure is answered for. */
  ghost predicate ZeroMeansCovered(h: Health) {
    DistinctStamps(h.failures) ==> (h.marker == 0 <==> h.covered == |h.failures|)
  }

  lemma StepKeepsMarkerInv(h: Health, a: HealthStep)
    requires HealthEnabled(h, a) && MarkerInv(h) && ZeroMeansCovered(h)
    ensures MarkerInv(HealthNext(h, a)) && ZeroMeansCovered(HealthNext(h, a))
  {
    var h' := HealthNext(h, a);
    if a.Failure? {
      assert forall i :: 0 <= i < |h.failures| ==> h'.failures[i] == h.failures[i];
      assert DistinctStamps(h'.failures) ==> DistinctStamps(h.failures);
    }
  }

  lemma {:induction false} RunsKeepMarkerInv(h: Health, steps: seq<HealthStep>, h': Health)
    requires MarkerInv(h) && ZeroMeansCovered(h) && HealthRun(h, steps, h')
    ensures MarkerInv(h') && ZeroMeansCovered(h')
    decreases |steps|
  {
    if steps != [] {
      StepKeepsMarkerInv(h, steps[0]);
      RunsKeepMarkerInv(HealthNext(h, steps[0]), steps[1..], h');
    }
  }

  /** In every reachable state, a step takes the marker back to healthy only if
      it finishes a pass that rebuilt every required cache after reading the
      marker and found the quiet period elapsed. With distinct stamps every
      failure recorded so far then precedes that read. */
  lemma {:induction false} ClearanceIsJustified(steps: seq<HealthStep>, h: Health, a: HealthStep)
    requires HealthRun(HEALTHY, steps, h) && HealthEnabled(h, a)
    requires h.marker != 0 && HealthNext(h, a).marker == 0
    ensures a.FinishAttempt? && h.attempt.value.observed.Some?
    ensures h.attempt.value.needLock ==> h.attempt.value.lock == Some(true) && h.attempt.value.bypass == Some(true)
    ensures h.attempt.value.needExpiry ==> h.attempt.value.expiry == Some(true) && h.attempt.value.bypass == Some(true)
    ensures SaturatingSub(a.now, h.attempt.value.observed.value) >= DURABLE_QUIET_PERIOD_US
    ensures DistinctStamps(h.failures) ==> h.attempt.value.readAt == |h.failures|
  {
    RunsKeepMarkerInv(HEALTHY, steps, h);
  }

  /** A pass clears the marker exactly when the marker is still the one it read,
      the quiet period has elapsed since, each cache an enabled feature consults
      was rebuilt, and the exemptions were refreshed if any feature is enabled. A
      cache no enabled feature consults does not matter. */
  lemma ClearsExactlyWhen(h: Health, now: int)
    requires HealthEnabled(h, FinishAttempt(now)) && h.marker != 0
    ensures var a := h.attempt.value;
            HealthNext(h, FinishAttempt(now)).marker == 0 <==>
              && a.observed == Some(h.marker) && SaturatingSub(now, h.marker) >= DURABLE_QUIET_PERIOD_US
              && (a.needLock ==> a.lock == Some(true)) && (a.needExpiry ==> a.expiry == Some(true))
              && (a.needLock || a.needExpiry ==> a.bypass == Some(true))
  {
  }

  /** A failure recorded after the read blocks an otherwise justified clearance
      exactly when the newest stamp differs from the observed one. */
  lemma {:induction false} LaterFailureBlocksIff(steps: seq<HealthStep>, h: Health, now: int)
    requires HealthRun(HEALTHY, steps, h) && HealthEnabled(h, FinishAttempt(now))
    requires h.attempt.value.observed.Some? && RequiredRebuilt(h.attempt.value)
    requires SaturatingSub(now, h.attempt.value.observed.value) >= DURABLE_QUIET_PERIOD_US
    requires h.attempt.value.readAt < |h.failures|
    ensures HealthNext(h, FinishAttempt(now)).marker != 0 <==>
              h.failures[|h.failures| - 1] != h.attempt.value.observed.value
  {
    RunsKeepMarkerInv(HEALTHY, steps, h);
  }

  /** With distinct stamps a healthy marker means that every failure ever
      recorded preceded the read of the last successful clearance. */
  lemma {:induction false} HealthyMeansAnswered(steps: seq<HealthStep>, h: Health)
    requires HealthRun(HEALTHY, steps, h) && DistinctStamps(h.failures)
    ensures h.marker == 0 <==> h.covered == |h.failures|
  {
    RunsKeepMarkerInv(HEALTHY, steps, h);
  }

  /** Equal stamps defeat the compare-and-exchange: a failure recorded during
      the rebuild at the observed instant is erased with the marker. */
  lemma EqualStampsAreErased(now: int)
    requires now > 0
    ensures exists steps, h :: HealthRun(HEALTHY, steps, h) && h.marker == 0 && h.covered < |h.failures|
  {
    var h0 := HealthNext(HEALTHY, Failure(now));
    var h1 := HealthNext(h0, BeginAttempt(true, true));
    var h2 := HealthNext(h1, Failure(now));
    var h3 := HealthNext(h2, LockRebuilt(true));
    var h4 := HealthNext(h3, ExpiryRebuilt(true));
    var h5 := HealthNext(h4, BypassRefreshed(true));
    var finish := FinishAttempt(now + DURABLE_QUIET_PERIOD_US);
    var h6 := HealthNext(h5, finish);
    var t6 := [finish];
    var t5 := [BypassRefreshed(true)] + t6;
    var t4 := [ExpiryRebuilt(true)] + t5;
    var t3 := [LockRebuilt(true)] + t4;
    var t2 := [Failure(now)] + t3;
    var t1 := [BeginAttempt(true, true)] + t2;
    var t0 := [Failure(now)] + t1;
    assert HealthRun(h6, [], h6);
    assert t6[1..] == [] && HealthRun(h5, t6, h6);
    assert t5[1..] == t6 && HealthRun(h4, t5, h6);
    assert t4[1..] == t5 && HealthRun(h3, t4, h6);
    assert t3[1..] == t4 && HealthRun(h2, t3, h6);
    assert t2[1..] == t3 && HealthRun(h1, t2, h6);
    assert t1[1..] == t2 && HealthRun(h0, t1, h6);
    assert t0[1..] == t1 && HealthRun(HEALTHY, t0, h6);
  }
}
