/** The bounded in-memory event ring (`AuthEventRing`) and the FIFO queue it
    implements.

    `Queue` and its functions are the specification; `AuthEventRing` is the
    fixed array with wrapping indices, each of whose methods is proved to
    perform the corresponding `Queue` transition.
 */
module EventRing {
  import opened AuthTypes

  const RING_SLOTS: nat := 1024
  const USABLE_CAPACITY: nat := RING_SLOTS - 1
  const QUEUE_WARN_INTERVAL_US: int := 60_000_000

  datatype QueueState = Healthy | Overflowed | Corrupt

  function StateFromRaw(raw: int): QueueState {
    if raw == 0 then Healthy else if raw == 1 then Overflowed else Corrupt
  }

  function RawState(s: QueueState): int {
    match s
    case Healthy => 0
    case Overflowed => 1
    case Corrupt => 2
  }

  datatype EnqueueOutcome = Enqueued | DurableOnly | Unavailable {
    predicate IsDurable() {
      Enqueued? || DurableOnly?
    }
  }

  datatype EnqueueStep = EnqueueStep(outcome: EnqueueOutcome, shouldWarn: bool)

  datatype AckOutcome = Acknowledged | Stale | AckCorrupt

  datatype ClaimToken = ClaimToken(slot: nat, seqNo: nat)

  // ---------------------------------------------------------------------
  // Specification: a bounded FIFO queue
  // ---------------------------------------------------------------------

  /** `held` lists the unacknowledged events oldest first; `tail` is the slot of
      the oldest one. */
  datatype Queue = Queue(
    tail: nat,
    held: seq<Event>,
    nextSeq: nat,
    accepted: nat,
    acknowledged: nat,
    rejected: nat,
    journaled: nat,
    durableOnly: nat,
    journalFailures: nat,
    state: QueueState,
    lastWarnedAt: int)

  const NEW_QUEUE: Queue := Queue(0, [], 1, 0, 0, 0, 0, 0, 0, Healthy, 0)

  /** `degrade_to`: never heals, and Corrupt outranks Overflowed. */
  function Degrade(s: QueueState, to: QueueState): QueueState {
    if to != Healthy && (to == Corrupt || s == Healthy) then to else s
  }

  predicate WarnDue(lastWarnedAt: int, wasHealthy: bool, now: int) {
    wasHealthy || lastWarnedAt == 0 || SaturatingSub(now, lastWarnedAt) >= QUEUE_WARN_INTERVAL_US
  }

  /** `try_enqueue`. */
  function Offer(q: Queue, e: Event): (Queue, EnqueueStep) {
    if q.state == Corrupt then
      (q, EnqueueStep(Unavailable, false))
    else if |q.held| >= USABLE_CAPACITY then
      var warn := WarnDue(q.lastWarnedAt, q.state == Healthy, e.timestamp);
      (q.(rejected := SaturatingInc(q.rejected), durableOnly := SaturatingInc(q.durableOnly),
          state := Degrade(q.state, Overflowed),
          lastWarnedAt := if warn then e.timestamp else q.lastWarnedAt),
       EnqueueStep(DurableOnly, warn))
    else if q.nextSeq == U64_MAX then
      (q.(rejected := SaturatingInc(q.rejected), state := Corrupt), EnqueueStep(Unavailable, false))
    else
      (q.(held := q.held + [e.(seqNo := q.nextSeq)], nextSeq := q.nextSeq + 1,
          accepted := SaturatingInc(q.accepted)),
       EnqueueStep(Enqueued, false))
  }

  /** The ring part of `enqueue_encoded_with_id_silent` after a successful
      journal append. */
  function Enqueue(q: Queue, e: Event): (Queue, EnqueueStep) {
    var (q1, step) := Offer(q.(journaled := SaturatingInc(q.journaled)), e);
    if step.outcome == Unavailable then
      (q1.(durableOnly := SaturatingInc(q1.durableOnly)), step.(outcome := DurableOnly))
    else
      (q1, step)
  }

  /** The ring part of `enqueue_encoded_with_id_silent` after a failed append. */
  function AppendFailed(q: Queue, now: int): (Queue, EnqueueStep) {
    var warn := WarnDue(q.lastWarnedAt, false, now);
    (q.(rejected := SaturatingInc(q.rejected), journalFailures := SaturatingInc(q.journalFailures),
        lastWarnedAt := if warn then now else q.lastWarnedAt),
     EnqueueStep(Unavailable, warn))
  }

  /** The slot after `index`, wrapping at the end of the array. */
  function Advance(index: nat): (next: nat)
    requires index < RING_SLOTS
    ensures next == if index == RING_SLOTS - 1 then 0 else index + 1
  {
    (index + 1) % RING_SLOTS
  }

  function Claim(q: Queue): Option<(ClaimToken, Event)> {
    if q.held == [] then None
    else Some((ClaimToken(q.tail, q.held[0].seqNo), q.held[0]))
  }

  /** `matching_claim`: the tail's token, but only for the wanted event. */
  function MatchingClaim(q: Queue, id: seq<byte>): Option<ClaimToken> {
    match Claim(q)
    case None => None
    case Some((token, e)) => if e.id == id then Some(token) else None
  }

  function Ack(q: Queue, token: ClaimToken): (Queue, AckOutcome) {
    if q.held == [] || token.slot != q.tail || q.held[0].seqNo != token.seqNo then
      (q, Stale)
    else
      (q.(tail := if q.tail < RING_SLOTS then Advance(q.tail) else q.tail, held := q.held[1..],
          acknowledged := SaturatingInc(q.acknowledged),
          state := if |q.held| == 1 && q.state == Overflowed then Healthy else q.state),
       Acknowledged)
  }

  /** `ack_claim`: an acknowledgement that does not validate corrupts the queue. */
  function AckClaim(q: Queue, token: ClaimToken): (Queue, AckOutcome) {
    var (q1, outcome) := Ack(q, token);
    if outcome == Acknowledged then (q1, outcome) else (q1.(state := Corrupt), outcome)
  }

  /** What every reachable queue satisfies since its last reset. */
  ghost predicate WellFormed(q: Queue) {
    && q.tail < RING_SLOTS
    && |q.held| <= USABLE_CAPACITY
    && |q.held| < q.nextSeq <= U64_MAX
    && (forall i :: 0 <= i < |q.held| ==> q.held[i].seqNo == q.nextSeq - |q.held| + i)
    && q.accepted == q.nextSeq - 1
    && q.accepted == q.acknowledged + |q.held|
    && (q.journaled < U64_MAX ==> q.journaled == q.accepted + q.durableOnly)
    && (q.state == Overflowed ==> q.held != [])
  }

  lemma EnqueueKeepsWellFormed(q: Queue, e: Event)
    requires WellFormed(q)
    ensures WellFormed(Enqueue(q, e).0)
    ensures q.held <= Enqueue(q, e).0.held
    ensures q.state == Corrupt ==> Enqueue(q, e).0.state == Corrupt
    ensures Enqueue(q, e).1.outcome.IsDurable()
  {
  }

  lemma AckKeepsWellFormed(q: Queue, token: ClaimToken)
    requires WellFormed(q)
    ensures WellFormed(AckClaim(q, token).0)
    ensures q.state == Corrupt ==> AckClaim(q, token).0.state == Corrupt
  {
    var q' := AckClaim(q, token).0;
    if Ack(q, token).1 == Acknowledged {
      assert q.acknowledged < U64_MAX;
    }
  }

  // ---------------------------------------------------------------------
  // Runs of the queue between two resets
  // ---------------------------------------------------------------------

  datatype RingOp =
    | Produce(event: Event)
    | FailAppend(now: int)
    | Acknowledge(token: ClaimToken)

  function Apply(q: Queue, op: RingOp): Queue {
    match op
    case Produce(e) => Enqueue(q, e).0
    case FailAppend(now) => AppendFailed(q, now).0
    case Acknowledge(token) => AckClaim(q, token).0
  }

  function RunOps(q: Queue, ops: seq<RingOp>): Queue
    decreases |ops|
  {
    if ops == [] then q else RunOps(Apply(q, ops[0]), ops[1..])
  }

  /** There is a free slot (one stays empty) and a number to give. */
  predicate RingHasRoom(q: Queue) {
    q.state != Corrupt && |q.held| < RING_SLOTS - 1 && q.nextSeq < U64_MAX
  }

  /** The token is that of the oldest event, by slot and by number. */
  predicate NamesTail(q: Queue, token: ClaimToken) {
    q.held != [] && token == ClaimToken(q.tail, q.held[0].seqNo)
  }

  /** The events one operation is to accept into the ring, numbered. */
  ghost function Accepts(q: Queue, op: RingOp): seq<Event> {
    if op.Produce? && RingHasRoom(q) then [op.event.(seqNo := q.nextSeq)] else []
  }

  /** The event one operation is to remove. */
  ghost function Removes(q: Queue, op: RingOp): seq<Event> {
    if op.Acknowledge? && NamesTail(q, op.token) then [q.held[0]] else []
  }

  /** An event is accepted exactly when there is room, as the newest; the ring
      becomes Overflowed exactly when a working ring is full. */
  lemma EnqueueAcceptsIff(q: Queue, e: Event)
    requires WellFormed(q)
    ensures var (q', step) := Enqueue(q, e);
            && (step.outcome == Enqueued <==> RingHasRoom(q))
            && q'.held == q.held + (if RingHasRoom(q) then [e.(seqNo := q.nextSeq)] else [])
            && (RingHasRoom(q) ==> q'.state == q.state)
            && (q.state != Corrupt && |q.held| == RING_SLOTS - 1 ==> q'.state == Overflowed)
            && (q'.state == Overflowed ==> q.state == Overflowed || |q.held| == RING_SLOTS - 1)
            && (q'.state == Corrupt ==> q.state == Corrupt || q.nextSeq == U64_MAX)
            && q'.tail == q.tail && q'.nextSeq == q.nextSeq + if RingHasRoom(q) then 1 else 0
  {
  }

  /** An acknowledgement removes the oldest event exactly when the token names
      it; any other corrupts the queue and removes nothing. Emptying the ring is
      what ends an overflow. */
  lemma AckRemovesIff(q: Queue, token: ClaimToken)
    requires WellFormed(q)
    ensures var (q', outcome) := AckClaim(q, token);
            && (outcome == Acknowledged <==> NamesTail(q, token))
            && q.held == (if NamesTail(q, token) then [q.held[0]] else []) + q'.held
            && (NamesTail(q, token) ==>
                  && q'.tail == (q.tail + 1) % RING_SLOTS
                  && q'.state == if q.state == Overflowed && q'.held == [] then Healthy else q.state)
            && (!NamesTail(q, token) ==> q'.state == Corrupt && q'.tail == q.tail)
            && q'.nextSeq == q.nextSeq
  {
  }

  ghost function AcceptedBy(q: Queue, ops: seq<RingOp>): seq<Event>
    decreases |ops|
  {
    if ops == [] then [] else Accepts(q, ops[0]) + AcceptedBy(Apply(q, ops[0]), ops[1..])
  }

  ghost function AcknowledgedBy(q: Queue, ops: seq<RingOp>): seq<Event>
    decreases |ops|
  {
    if ops == [] then [] else Removes(q, ops[0]) + AcknowledgedBy(Apply(q, ops[0]), ops[1..])
  }

  /** What an operation leaves of the queue. */
  ghost predicate Moves(q: Queue, op: RingOp, q': Queue) {
    && WellFormed(q') && q.held + Accepts(q, op) == Removes(q, op) + q'.held
    && q'.nextSeq == q.nextSeq + |Accepts(q, op)|
    && (q.state == Corrupt ==> q'.state == Corrupt)
  }

  lemma ProduceMovesHeld(q: Queue, e: Event)
    requires WellFormed(q)
    ensures Moves(q, Produce(e), Enqueue(q, e).0)
  {
    EnqueueKeepsWellFormed(q, e);
    EnqueueAcceptsIff(q, e);
  }

  lemma AckMovesHeld(q: Queue, token: ClaimToken)
    requires WellFormed(q)
    ensures Moves(q, Acknowledge(token), AckClaim(q, token).0)
  {
    AckKeepsWellFormed(q, token);
    AckRemovesIff(q, token);
  }

  lemma ApplyMovesHeld(q: Queue, op: RingOp)
    requires WellFormed(q)
    ensures Moves(q, op, Apply(q, op))
  {
    match op
    case Produce(e) => ProduceMovesHeld(q, e);
    case FailAppend(now) =>
    case Acknowledge(token) => AckMovesHeld(q, token);
  }

  /** Between resets the ring is a FIFO queue: what was held plus what was
      accepted is, in order, what was acknowledged plus what is still held.
      Sequence numbers are issued consecutively, the accounting identities of
      `WellFormed` hold throughout, and Corrupt is never left. */
  lemma {:induction false} RunsAreFifo(q: Queue, ops: seq<RingOp>)
    requires WellFormed(q)
    ensures WellFormed(RunOps(q, ops))
    ensures q.held + AcceptedBy(q, ops) == AcknowledgedBy(q, ops) + RunOps(q, ops).held
    ensures RunOps(q, ops).nextSeq == q.nextSeq + |AcceptedBy(q, ops)|
    ensures q.state == Corrupt ==> RunOps(q, ops).state == Corrupt
    decreases |ops|
  {
    if ops != [] {
      var q1, rest := Apply(q, ops[0]), ops[1..];
      ApplyMovesHeld(q, ops[0]);
      RunsAreFifo(q1, rest);
      Reassociate(q.held, Accepts(q, ops[0]), AcceptedBy(q1, rest),
                  Removes(q, ops[0]), q1.held, AcknowledgedBy(q1, rest), RunOps(q1, rest).held);
    }
  }

  /** The operations that produce these events one after the other. */
  function ProduceAll(events: seq<Event>): seq<RingOp> {
    if events == [] then [] else [Produce(events[0])] + ProduceAll(events[1..])
  }

  /** The events as the ring numbers them from `first` on. */
  function Numbered(events: seq<Event>, first: nat): (r: seq<Event>)
    ensures |r| == |events|
    ensures forall i :: 0 <= i < |r| ==> r[i] == events[i].(seqNo := first + i)
  {
    if events == [] then [] else [events[0].(seqNo := first)] + Numbered(events[1..], first + 1)
  }

  /** Producing one event and then the rest. */
  lemma ProduceFirst(q: Queue, events: seq<Event>)
    requires events != []
    ensures RunOps(q, ProduceAll(events)) == RunOps(Enqueue(q, events[0]).0, ProduceAll(events[1..]))
  {
    assert ProduceAll(events)[1..] == ProduceAll(events[1..]);
  }

  lemma OneMoreHeld(q: Queue, events: seq<Event>) returns (q1: Queue)
    requires WellFormed(q) && RingHasRoom(q) && events != []
    ensures WellFormed(q1) && q1.held == q.held + [events[0].(seqNo := q.nextSeq)]
    ensures q1.nextSeq == q.nextSeq + 1 && q1.state == q.state
    ensures RunOps(q, ProduceAll(events)) == RunOps(q1, ProduceAll(events[1..]))
  {
    q1 := Enqueue(q, events[0]).0;
    EnqueueAcceptsIff(q, events[0]);
    ApplyMovesHeld(q, Produce(events[0]));
    ProduceFirst(q, events);
  }

  lemma HeldInOrder(held: seq<Event>, events: seq<Event>, first: nat)
    requires events != []
    ensures (held + [events[0].(seqNo := first)]) + Numbered(events[1..], first + 1) == held + Numbered(events, first)
  {
  }

  /** As many events as there are free slots are all held, in order and behind
      what was held, and the state does not change. */
  lemma {:induction false} FreeSlotsHoldAll(q: Queue, events: seq<Event>)
    requires WellFormed(q) && q.state != Corrupt
    requires |q.held| + |events| <= RING_SLOTS - 1 && q.nextSeq + |events| <= U64_MAX
    ensures var q' := RunOps(q, ProduceAll(events));
            && WellFormed(q') && q'.state == q.state
            && q'.held == q.held + Numbered(events, q.nextSeq)
    decreases |events|
  {
    if events != [] {
      var q1 := OneMoreHeld(q, events);
      FreeSlotsHoldAll(q1, events[1..]);
      HeldInOrder(q.held, events, q.nextSeq);
    }
  }

  /** And one more than that is left to the journal: a Healthy ring whose free
      slots are filled is Overflowed by the next event, and holds it not. */
  lemma {:induction false} FullRingRefuses(q: Queue, events: seq<Event>, next: Event)
    requires WellFormed(q) && q.state == Healthy
    requires |q.held| + |events| == RING_SLOTS - 1 && q.nextSeq + |events| <= U64_MAX
    ensures var q' := RunOps(q, ProduceAll(events));
            && q'.state == Healthy && q'.held == q.held + Numbered(events, q.nextSeq)
            && Enqueue(q', next).1.outcome == DurableOnly
            && Enqueue(q', next).0.held == q'.held && Enqueue(q', next).0.state == Overflowed
  {
    FreeSlotsHoldAll(q, events);
    EnqueueAcceptsIff(RunOps(q, ProduceAll(events)), next);
  }

  lemma Reassociate(h: seq<Event>, a: seq<Event>, a': seq<Event>,
                    r: seq<Event>, h1: seq<Event>, r': seq<Event>, h': seq<Event>)
    requires h + a == r + h1 && h1 + a' == r' + h'
    ensures h + (a + a') == (r + r') + h'
  {
    assert h + (a + a') == (h + a) + a';
    assert r + (h1 + a') == (r + h1) + a';
    assert r + (r' + h') == (r + r') + h';
  }

  /** A token can only ever acknowledge the event it was claimed for, however
      often the slots have wrapped since: if it still validates after any run
      without a reset, nothing has been acknowledged in between. */
  lemma {:induction false} TokenNamesOneEvent(q: Queue, ops: seq<RingOp>)
    requires WellFormed(q) && Claim(q).Some?
    ensures var (token, e) := Claim(q).value;
            var q' := RunOps(q, ops);
            Ack(q', token).1 == Acknowledged ==> AcknowledgedBy(q, ops) == [] && q'.held[0] == e
  {
    RunsAreFifo(q, ops);
    var (token, e) := Claim(q).value;
    var q' := RunOps(q, ops);
    if Ack(q', token).1 == Acknowledged {
      assert q'.nextSeq - |q'.held| == q.nextSeq - |q.held| + |AcknowledgedBy(q, ops)|;
      assert (q.held + AcceptedBy(q, ops))[0] == e;
    }
  }

  /** A token that has acknowledged its event never validates again. */
  lemma {:induction false} TokenIsSpentByAck(q: Queue, token: ClaimToken, ops: seq<RingOp>)
    requires WellFormed(q)
    requires Ack(q, token).1 == Acknowledged
    ensures Ack(RunOps(AckClaim(q, token).0, ops), token).1 != Acknowledged
  {
    var q1 := AckClaim(q, token).0;
    AckKeepsWellFormed(q, token);
    RunsAreFifo(q1, ops);
    var q' := RunOps(q1, ops);
    assert q'.nextSeq - |q'.held| == q1.nextSeq - |q1.held| + |AcknowledgedBy(q1, ops)|;
  }

  /** Claim-then-acknowledge, repeated `n` times. */
  function DrainSteps(q: Queue, n: nat): Queue
    requires n <= |q.held|
    decreases n
  {
    if n == 0 then q else DrainSteps(AckClaim(q, Claim(q).value.0).0, n - 1)
  }

  /** Exactly `depth` claim-then-acknowledge steps empty a well-formed queue, no
      fewer do, and one that is not Corrupt ends Healthy. */
  lemma {:induction false} DrainEmptiesInDepthSteps(q: Queue, n: nat)
    requires WellFormed(q)
    requires n <= |q.held|
    ensures DrainSteps(q, n).held == q.held[n..]
    ensures DrainSteps(q, n).held == [] <==> n == |q.held|
    ensures q.state != Corrupt && n == |q.held| ==> DrainSteps(q, n).state == Healthy
    ensures WellFormed(DrainSteps(q, n))
    decreases n
  {
    if n > 0 {
      var token := Claim(q).value.0;
      AckKeepsWellFormed(q, token);
      DrainEmptiesInDepthSteps(AckClaim(q, token).0, n - 1);
    }
  }

  // ---------------------------------------------------------------------
  // Implementation: a fixed array with wrapping indices
  // ---------------------------------------------------------------------

  const EMPTY_EVENT: Event := Event(seq(16, _ => 0), NoName(), 0, 0, 2, 0, 0)

  /** The slots from `tail` up to but excluding `head`, wrapping at the end. */
  function Segment(slots: seq<Event>, tail: nat, head: nat): (s: seq<Event>)
    requires |slots| == RING_SLOTS && tail < RING_SLOTS && head < RING_SLOTS
    ensures |s| == (head + RING_SLOTS - tail) % RING_SLOTS
  {
    if tail <= head then slots[tail..head] else slots[tail..] + slots[..head]
  }

  /** Writing the slot at `head` and advancing it appends one event, unless the
      advanced head would meet the tail. */
  lemma PushExtendsSegment(slots: seq<Event>, tail: nat, head: nat, e: Event)
    requires |slots| == RING_SLOTS && tail < RING_SLOTS && head < RING_SLOTS
    ensures Advance(head) == tail <==> |Segment(slots, tail, head)| == USABLE_CAPACITY
    ensures Advance(head) != tail ==>
              Segment(slots[head := e], tail, Advance(head)) == Segment(slots, tail, head) + [e]
  {
    var s, s' := Segment(slots, tail, head), slots[head := e];
    if Advance(head) != tail {
      var r := Segment(s', tail, Advance(head));
      if tail <= head && head < RING_SLOTS - 1 {
        assert r == s'[tail..head] + [e];
      } else if tail <= head {
        assert s'[..0] == [];
        assert r == s'[tail..head] + [e];
      } else {
        assert r == s'[tail..] + (s'[..head] + [e]);
      }
    }
  }

  /** Advancing `tail` drops exactly the oldest event. */
  lemma PopShrinksSegment(slots: seq<Event>, tail: nat, head: nat)
    requires |slots| == RING_SLOTS && tail < RING_SLOTS && head < RING_SLOTS && tail != head
    ensures var s := Segment(slots, tail, head);
            s != [] && s[0] == slots[tail] && Segment(slots, Advance(tail), head) == s[1..]
  {
    if tail < head {
      assert slots[tail..head][1..] == slots[tail + 1..head];
    } else if tail < RING_SLOTS - 1 {
      assert (slots[tail..] + slots[..head])[1..] == slots[tail + 1..] + slots[..head];
    } else {
      assert (slots[tail..] + slots[..head])[1..] == slots[0..head];
    }
  }

  class AuthEventRing {
    var head: nat
    var tail: nat
    var nextSeq: nat
    var accepted: nat
    var acknowledged: nat
    var rejected: nat
    var journaled: nat
    var durableOnly: nat
    var journalFailures: nat
    var state: int
    var lastWarnedAt: int
    const events: array<Event>

    predicate IndicesValid()
      reads this
    {
      head < RING_SLOTS && tail < RING_SLOTS
    }

    function Depth(): (d: nat)
      reads this
      ensures !IndicesValid() ==> d == 0
      ensures d <= USABLE_CAPACITY
    {
      if !IndicesValid() then 0 else (head + RING_SLOTS - tail) % RING_SLOTS
    }

    /** The queue this ring represents. */
    ghost function View(): (q: Queue)
      requires events.Length == RING_SLOTS && IndicesValid()
      reads this, events
      ensures |q.held| == Depth()
    {
      Queue(tail, Segment(events[..], tail, head), nextSeq, accepted, acknowledged, rejected,
            journaled, durableOnly, journalFailures, StateFromRaw(state), lastWarnedAt)
    }

    constructor ()
      ensures events.Length == RING_SLOTS && fresh(events)
      ensures IndicesValid() && View() == NEW_QUEUE
    {
      head, tail, nextSeq := 0, 0, 1;
      accepted, acknowledged, rejected := 0, 0, 0;
      journaled, durableOnly, journalFailures := 0, 0, 0;
      state, lastWarnedAt := 0, 0;
      events := new Event[RING_SLOTS](_ => EMPTY_EVENT);
    }

    method DegradeTo(newState: QueueState)
      modifies this`state
      ensures StateFromRaw(state) == Degrade(StateFromRaw(old(state)), newState)
      ensures newState == Corrupt || StateFromRaw(old(state)) == Corrupt ==> StateFromRaw(state) == Corrupt
      ensures newState == Healthy ==> state == old(state)
      ensures newState == Overflowed && StateFromRaw(old(state)) != Corrupt ==> StateFromRaw(state) == Overflowed
    {
      if newState != Healthy {
        if newState == Corrupt || StateFromRaw(state) == Healthy {
          state := RawState(newState);
        }
      }
    }

    method ShouldWarnNow(wasHealthy: bool, now: int) returns (warn: bool)
      modifies this`lastWarnedAt
      ensures warn == WarnDue(old(lastWarnedAt), wasHealthy, now)
      ensures IsI64(now - old(lastWarnedAt)) ==>
                (warn <==> wasHealthy || old(lastWarnedAt) == 0 || now - old(lastWarnedAt) >= 60_000_000)
      ensures lastWarnedAt == if warn then now else old(lastWarnedAt)
    {
      if wasHealthy || lastWarnedAt == 0
         || SaturatingSub(now, lastWarnedAt) >= QUEUE_WARN_INTERVAL_US {
        lastWarnedAt := now;
        return true;
      }
      return false;
    }

    /** Unusable indices make the queue Corrupt and store nothing; otherwise the
        ring performs exactly the FIFO transition `Offer`. */
    method TryEnqueue(e: Event) returns (step: EnqueueStep)
      requires events.Length == RING_SLOTS
      modifies this, events
      ensures head < RING_SLOTS <==> old(head) < RING_SLOTS
      ensures IndicesValid() == old(IndicesValid())
      ensures !old(IndicesValid()) ==>
                && step == EnqueueStep(Unavailable, false)
                && StateFromRaw(state) == Corrupt && events[..] == old(events[..])
      ensures old(IndicesValid()) ==> (View(), step) == Offer(old(View()), e)
    {
      if !IndicesValid() {
        DegradeTo(Corrupt);
        return EnqueueStep(Unavailable, false);
      }
      if StateFromRaw(state) == Corrupt {
        return EnqueueStep(Unavailable, false);
      }
      var nextHead := Advance(head);
      PushExtendsSegment(events[..], tail, head, e.(seqNo := nextSeq));
      if nextHead == tail {
        var wasHealthy := StateFromRaw(state) == Healthy;
        rejected := SaturatingInc(rejected);
        durableOnly := SaturatingInc(durableOnly);
        DegradeTo(Overflowed);
        var warn := ShouldWarnNow(wasHealthy, e.timestamp);
        return EnqueueStep(DurableOnly, warn);
      }
      if nextSeq == U64_MAX {
        rejected := SaturatingInc(rejected);
        DegradeTo(Corrupt);
        return EnqueueStep(Unavailable, false);
      }
      var seqNo := nextSeq;
      nextSeq := nextSeq + 1;
      events[head] := e.(seqNo := seqNo);
      head := nextHead;
      accepted := SaturatingInc(accepted);
      step := EnqueueStep(Enqueued, false);
      assert events[..] == old(events[..])[old(head) := e.(seqNo := seqNo)];
    }

    /** Copies the oldest event out without moving `tail`. */
    method ClaimTail() returns (r: Option<(ClaimToken, Event)>)
      requires events.Length == RING_SLOTS
      modifies this`state
      ensures !old(IndicesValid()) ==> r == None && StateFromRaw(state) == Corrupt
      ensures old(IndicesValid()) ==> r == Claim(old(View())) && View() == old(View())
    {
      if !IndicesValid() {
        DegradeTo(Corrupt);
        return None;
      }
      if head == tail {
        return None;
      }
      var slot := tail;
      var event := events[slot];
      return Some((ClaimToken(slot, event.seqNo), event));
    }

    method AckTail(token: ClaimToken) returns (outcome: AckOutcome)
      requires events.Length == RING_SLOTS
      modifies this
      ensures IndicesValid() == old(IndicesValid())
      ensures !old(IndicesValid()) ==> outcome == AckCorrupt && StateFromRaw(state) == Corrupt
      ensures old(IndicesValid()) ==> (View(), outcome) == Ack(old(View()), token)
    {
      if !IndicesValid() {
        DegradeTo(Corrupt);
        return AckCorrupt;
      }
      if head == tail || token.slot != tail {
        return Stale;
      }
      if events[token.slot].seqNo != token.seqNo {
        return Stale;
      }
      PopShrinksSegment(events[..], tail, head);
      tail := Advance(tail);
      acknowledged := SaturatingInc(acknowledged);
      if head == tail && StateFromRaw(state) == Overflowed {
        state := RawState(Healthy);
      }
      outcome := Acknowledged;
    }

    /** `ack_claim`, the commit callback's acknowledgement. */
    method AcknowledgeClaim(token: ClaimToken) returns (outcome: AckOutcome)
      requires events.Length == RING_SLOTS
      modifies this
      ensures IndicesValid() == old(IndicesValid())
      ensures old(IndicesValid()) ==> (View(), outcome) == AckClaim(old(View()), token)
      ensures !old(IndicesValid()) ==> outcome == AckCorrupt && StateFromRaw(state) == Corrupt
    {
      outcome := AckTail(token);
      if outcome != Acknowledged {
        DegradeTo(Corrupt);
      }
    }

    /** The ring section of `enqueue_encoded_with_id_silent`. */
    method RecordAppend(e: Event, appended: bool) returns (step: EnqueueStep)
      requires events.Length == RING_SLOTS
      modifies this, events
      ensures IndicesValid() == old(IndicesValid())
      ensures step.outcome.IsDurable() <==> appended
      ensures old(IndicesValid()) ==>
                (View(), step) == if appended then Enqueue(old(View()), e)
                                  else AppendFailed(old(View()), e.timestamp)
    {
      if !appended {
        rejected := SaturatingInc(rejected);
        journalFailures := SaturatingInc(journalFailures);
        var warn := ShouldWarnNow(false, e.timestamp);
        return EnqueueStep(Unavailable, warn);
      }
      journaled := SaturatingInc(journaled);
      step := TryEnqueue(e);
      if step.outcome == Unavailable {
        durableOnly := SaturatingInc(durableOnly);
        step := step.(outcome := DurableOnly);
      }
    }
  }
}
