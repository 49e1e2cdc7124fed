/**
 The realtime session of realtime_session.py as a transition system.

 asyncio runs one task at a time and only switches at an `await` that suspends, so the code between two
 such points is one atomic step.  A step is named by the task that takes it: a producer (`Push`,
 `ResumePut`, `CancelPut`), the consumer task (`LoopTop` .. `Write`), a closer (`CloseBegin` .. `CloseRaise`)
 or the owner of the session (`Advance`, `StartConsumer`, `CancelConsumer`).
 */
module SessionProtocol {
  import opened Common

  datatype Phase = Created | Connecting | Active | Draining | Closed | Failed

  /** The table VALID_TRANSITIONS. */
  predicate ValidTransition(current: Phase, target: Phase) {
    match current
    case Created => target == Connecting || target == Failed
    case Connecting => target == Active || target == Failed
    case Active => target == Draining || target == Failed
    case Draining => target == Phase.Closed || target == Failed
    case Closed => false
    case Failed => false
  }

  datatype Envelope = Envelope(id: string, topic: string, payload: string)

  /** `BoundedWsEnvelopeQueue`: the FIFO and its telemetry. */
  datatype QueueState = QueueState(capacity: nat, items: seq<Envelope>, enqueued: nat, dequeued: nat,
                                   highWatermark: nat) {
    predicate Full() {
      |items| >= capacity
    }

    function Put(e: Envelope): QueueState {
      QueueState(capacity, items + [e], enqueued + 1, dequeued, Max(highWatermark, |items| + 1))
    }

    function Get(): QueueState
      requires items != []
    {
      QueueState(capacity, items[1..], enqueued, dequeued + 1, highWatermark)
    }
  }

  function Max(a: nat, b: nat): nat {
    if a < b then b else a
  }

  /** `RawWsSegmentWriter`: the open partial segment, if any, and the sealed ones. */
  datatype WriterState = WriterState(partial: Option<seq<Envelope>>, sealed: seq<seq<Envelope>>) {
    function Append(e: Envelope): WriterState {
      WriterState(Some((if partial.None? then [] else partial.value) + [e]), sealed)
    }

    function Seal(): WriterState {
      if partial.None? then this else WriterState(None, sealed + [partial.value])
    }

    /** Every line on disk, sealed or not. */
    function Log(): seq<Envelope> {
      (if sealed == [] then [] else sealed[0]) + (if partial.None? then [] else partial.value)
    }
  }

  /** Where the consumer task stands.  It suspends only in `Waiting`; `AtTop` is also its state before its first run. */
  datatype Consumer = NotStarted | AtTop | Waiting | Holding(envelope: Envelope) | Finished | Crashed | Cancelled {
    predicate Running() {
      AtTop? || Waiting? || Holding?
    }

    predicate Suspended() {
      AtTop? || Waiting?
    }

    /** The task ended by raising; awaiting it raises again. */
    predicate Dead() {
      Crashed? || Cancelled?
    }
  }

  /** The counters of `RealtimeSessionMetadata`. */
  datatype Meta = Meta(received: nat, enqueued: nat, written: nat, watermark: nat)

  /** What the producers did: accepted push calls in call order, insertions in order, pushes cancelled while blocked. */
  datatype History = History(offered: seq<Envelope>, accepted: seq<Envelope>, abandoned: seq<Envelope>)

  datatype State = State(
    phase: Phase,
    stopRequested: bool,
    consumer: Consumer,
    closers: nat,             // close_session calls awaiting the consumer task
    queue: QueueState,
    blocked: seq<Envelope>,   // pushes suspended on a full queue
    writer: WriterState,
    meta: Meta,
    history: History)

  function InitialState(capacity: nat): State {
    State(Created, false, NotStarted, 0, QueueState(capacity, [], 0, 0, 0), [], WriterState(None, []),
          Meta(0, 0, 0, 0), History([], [], []))
  }

  /** How one write-and-normalize attempt ends.  A failing fsync can leave the line in the file. */
  datatype WriteOutcome = Written | WrittenNotNormalized | WriteFailed(lineInFile: bool)

  datatype Step =
    | Advance(target: Phase)
    | Push(envelope: Envelope)
    | ResumePut(index: nat)
    | CancelPut(index: nat)
    | StartConsumer
    | CancelConsumer
    | LoopTop
    | Take
    | GetTimeout
    | Write(outcome: WriteOutcome)
    | CloseBegin
    | CloseFinish
    | CloseTimeout
    | CloseRaise

  predicate Enabled(s: State, step: Step) {
    match step
    case Advance(target) => target != Draining && target != Phase.Closed && ValidTransition(s.phase, target)
    case Push(_) => s.phase == Connecting || s.phase == Active
    case ResumePut(i) => i < |s.blocked| && !s.queue.Full()
    case CancelPut(i) => i < |s.blocked|
    case StartConsumer => s.consumer.NotStarted?
    case CancelConsumer => s.consumer.Suspended()
    case LoopTop => s.consumer.AtTop?
    case Take => s.consumer.Waiting? && s.queue.items != []
    case GetTimeout => s.consumer.Waiting?
    case Write(_) => s.consumer.Holding?
    case CloseBegin => true
    case CloseFinish => s.closers > 0 && s.consumer.Finished?
    case CloseTimeout => s.closers > 0 && s.consumer.Suspended()
    case CloseRaise => s.closers > 0 && s.consumer.Dead()
  }

  /** The tail of `put` and `push_envelope` once the insertion goes through. */
  function Enqueue(s: State, e: Envelope): State {
    var q := s.queue.Put(e);
    s.(queue := q,
       meta := s.meta.(enqueued := s.meta.enqueued + 1, watermark := Max(s.meta.watermark, q.highWatermark)),
       history := s.history.(accepted := s.history.accepted + [e]))
  }

  /** The part of `push_envelope` before it can suspend. */
  function Offer(s: State, e: Envelope): State {
    s.(meta := s.meta.(received := s.meta.received + 1), history := s.history.(offered := s.history.offered + [e]))
  }

  function Without<T>(b: seq<T>, i: nat): seq<T>
    requires i < |b|
  {
    b[..i] + b[i + 1..]
  }

  /** `transition_to(FAILED)`; when the table forbids it the call raises and the phase stays. */
  function FailedFrom(p: Phase): Phase {
    if ValidTransition(p, Failed) then Failed else p
  }

  function AfterWrite(s: State, e: Envelope, outcome: WriteOutcome): State {
    match outcome
    case Written =>
      s.(writer := s.writer.Append(e), meta := s.meta.(written := s.meta.written + 1), consumer := AtTop)
    case WrittenNotNormalized =>
      s.(writer := s.writer.Append(e), meta := s.meta.(written := s.meta.written + 1),
         consumer := Crashed, phase := FailedFrom(s.phase))
    case WriteFailed(lineInFile) =>
      s.(writer := if lineInFile then s.writer.Append(e) else s.writer,
         consumer := Crashed, phase := FailedFrom(s.phase))
  }

  function SealAndClose(s: State): State {
    s.(writer := s.writer.Seal(), phase := if s.phase == Draining then Phase.Closed else s.phase)
  }

  function BeginClose(s: State): State {
    var t := s.(stopRequested := true);
    if s.phase == Connecting then t   // DRAINING is not a target of CONNECTING: the call raises here
    else
      var u := if s.phase == Active then t.(phase := Draining) else t;
      if s.consumer.NotStarted? then SealAndClose(u) else u.(closers := s.closers + 1)
  }

  function TimeOutClose(s: State): State
    requires s.closers > 0
  {
    var t := s.(closers := s.closers - 1, consumer := Cancelled);
    if ValidTransition(s.phase, Failed) then t.(phase := Failed, writer := s.writer.Seal()) else t
  }

  function Apply(s: State, step: Step): State
    requires Enabled(s, step)
  {
    match step
    case Advance(target) => s.(phase := target)
    case Push(e) => if s.queue.Full() then Offer(s, e).(blocked := s.blocked + [e]) else Enqueue(Offer(s, e), e)
    case ResumePut(i) => Enqueue(s.(blocked := Without(s.blocked, i)), s.blocked[i])
    case CancelPut(i) =>
      s.(blocked := Without(s.blocked, i), history := s.history.(abandoned := s.history.abandoned + [s.blocked[i]]))
    case StartConsumer => s.(consumer := AtTop)
    case CancelConsumer => s.(consumer := Cancelled)
    case LoopTop => s.(consumer := if s.stopRequested && s.queue.items == [] then Finished else Waiting)
    case Take => s.(queue := s.queue.Get(), consumer := Holding(s.queue.items[0]))
    case GetTimeout => s.(consumer := AtTop)
    case Write(outcome) => AfterWrite(s, s.consumer.envelope, outcome)
    case CloseBegin => BeginClose(s)
    case CloseFinish => SealAndClose(s.(closers := s.closers - 1))
    case CloseTimeout => TimeOutClose(s)
    case CloseRaise => s.(closers := s.closers - 1)
  }

  predicate Runnable(s: State, steps: seq<Step>)
    decreases |steps|
  {
    steps == [] || (Enabled(s, steps[0]) && Runnable(Apply(s, steps[0]), steps[1..]))
  }

  function Run(s: State, steps: seq<Step>): State
    requires Runnable(s, steps)
    decreases |steps|
  {
    if steps == [] then s else Run(Apply(s, steps[0]), steps[1..])
  }

  ghost predicate Reachable(s: State) {
    exists capacity: nat, steps: seq<Step> ::
      capacity > 0 && Runnable(InitialState(capacity), steps) && Run(InitialState(capacity), steps) == s
  }

  // ---------------------------------------------------------------- the invariant

  /** The queue is bounded and holds the insertions that were not yet dequeued, in order. */
  predicate QueueInv(q: QueueState, accepted: seq<Envelope>) {
    && 0 < q.capacity
    && |q.items| <= q.capacity
    && q.highWatermark <= q.capacity
    && q.enqueued == |accepted|
    && q.dequeued + |q.items| == |accepted|
    && accepted[q.dequeued..] == q.items
  }

  predicate MetaInv(s: State) {
    && s.meta.received == |s.history.offered|
    && s.meta.enqueued == |s.history.accepted|
    && s.meta.watermark == s.queue.highWatermark
  }

  ghost predicate ProducerInv(blocked: seq<Envelope>, h: History) {
    multiset(h.offered) == multiset(h.accepted) + multiset(blocked) + multiset(h.abandoned)
  }

  /** `taken` is what was dequeued: the log falls short of it by the envelope the consumer holds or crashed on. */
  predicate LogInv(consumer: Consumer, w: WriterState, written: nat, taken: seq<Envelope>) {
    match consumer
    case NotStarted => taken == [] && written == 0 && w == WriterState(None, [])
    case Holding(e) => taken == w.Log() + [e] && written == |w.Log()|
    case Crashed => |w.Log()| <= |taken| <= written + 1 && written <= |w.Log()| && w.Log() <= taken && taken != []
    case _ => taken == w.Log() && written == |taken|
  }

  predicate ControlInv(s: State) {
    && (s.writer.partial.Some? ==> s.writer.partial.value != [])
    && |s.writer.sealed| <= 1
    && (s.writer.sealed != [] ==>
          && s.writer.partial.None? && s.writer.sealed[0] != []
          && (s.consumer.Finished? || s.consumer.Cancelled?))
    && (s.consumer.Crashed? ==> s.phase == Phase.Closed || s.phase == Failed)
    && (s.phase == Draining || s.phase == Phase.Closed ==> s.stopRequested)
    && (s.phase == Draining || s.closers > 0 ==> !s.consumer.NotStarted?)
  }

  ghost predicate Inv(s: State) {
    && QueueInv(s.queue, s.history.accepted)
    && MetaInv(s)
    && ProducerInv(s.blocked, s.history)
    && LogInv(s.consumer, s.writer, s.meta.written, Taken(s))
    && ControlInv(s)
  }

  function Taken(s: State): seq<Envelope>
    requires QueueInv(s.queue, s.history.accepted)
  {
    s.history.accepted[..s.queue.dequeued]
  }

  lemma InitialInv(capacity: nat)
    requires capacity > 0
    ensures Inv(InitialState(capacity))
  {
  }

  lemma WithoutMultiset<T>(b: seq<T>, i: nat)
    requires i < |b|
    ensures multiset(b) == multiset(Without(b, i)) + multiset{b[i]}
  {
    assert b == b[..i] + [b[i]] + b[i + 1..];
  }

  lemma AppendedMultiset<T>(b: seq<T>, x: T)
    ensures multiset(b + [x]) == multiset(b) + multiset{x}
  {
  }

  lemma PushKeepsProducers(blocked: seq<Envelope>, h: History, e: Envelope)
    requires ProducerInv(blocked, h)
    ensures ProducerInv(blocked + [e], h.(offered := h.offered + [e]))
    ensures ProducerInv(blocked, h.(offered := h.offered + [e], accepted := h.accepted + [e]))
  {
    AppendedMultiset(h.offered, e);
    AppendedMultiset(h.accepted, e);
    AppendedMultiset(blocked, e);
  }

  lemma UnblockKeepsProducers(blocked: seq<Envelope>, h: History, i: nat)
    requires ProducerInv(blocked, h) && i < |blocked|
    ensures ProducerInv(Without(blocked, i), h.(accepted := h.accepted + [blocked[i]]))
    ensures ProducerInv(Without(blocked, i), h.(abandoned := h.abandoned + [blocked[i]]))
  {
    WithoutMultiset(blocked, i);
    AppendedMultiset(h.accepted, blocked[i]);
    AppendedMultiset(h.abandoned, blocked[i]);
  }

  lemma StepKeepsProducers(s: State, step: Step)
    requires ProducerInv(s.blocked, s.history) && Enabled(s, step)
    ensures ProducerInv(Apply(s, step).blocked, Apply(s, step).history)
  {
    if step.ResumePut? || step.CancelPut? {
      UnblockKeepsProducers(s.blocked, s.history, step.index);
    } else if step.Push? {
      PushKeepsProducers(s.blocked, s.history, step.envelope);
    }
  }

  lemma PutKeepsQueue(q: QueueState, accepted: seq<Envelope>, e: Envelope)
    requires QueueInv(q, accepted) && !q.Full()
    ensures QueueInv(q.Put(e), accepted + [e]) && (accepted + [e])[..q.dequeued] == accepted[..q.dequeued]
  {
  }

  lemma GetKeepsQueue(q: QueueState, accepted: seq<Envelope>)
    requires QueueInv(q, accepted) && q.items != []
    ensures QueueInv(q.Get(), accepted)
    ensures accepted[..q.dequeued + 1] == accepted[..q.dequeued] + [q.items[0]]
  {
    assert q.items[0] == accepted[q.dequeued];
  }

  /** An insertion leaves what was taken alone; a dequeue moves the head of the queue into it. */
  lemma StepKeepsQueue(s: State, step: Step)
    requires QueueInv(s.queue, s.history.accepted) && Enabled(s, step)
    ensures QueueInv(Apply(s, step).queue, Apply(s, step).history.accepted)
    ensures Taken(Apply(s, step)) == Taken(s) + if step.Take? then [s.queue.items[0]] else []
  {
    if step.Push? && !s.queue.Full() {
      PutKeepsQueue(s.queue, s.history.accepted, step.envelope);
    } else if step.ResumePut? {
      PutKeepsQueue(s.queue, s.history.accepted, s.blocked[step.index]);
    } else if step.Take? {
      GetKeepsQueue(s.queue, s.history.accepted);
    } else {
      StepKeepsQueueAlone(s, step);
    }
  }

  lemma StepKeepsQueueAlone(s: State, step: Step)
    requires Enabled(s, step) && !step.Take? && !step.ResumePut? && (step.Push? ==> s.queue.Full())
    ensures Apply(s, step).queue == s.queue && Apply(s, step).history.accepted == s.history.accepted
  {
  }

  lemma StepKeepsMeta(s: State, step: Step)
    requires MetaInv(s) && Enabled(s, step)
    ensures MetaInv(Apply(s, step))
  {
  }

  lemma AppendExtendsLog(w: WriterState, e: Envelope)
    requires w.sealed == []
    ensures w.Append(e).Log() == w.Log() + [e]
  {
  }

  lemma SealKeepsLog(w: WriterState)
    requires w.sealed == []
    ensures w.Seal().Log() == w.Log()
  {
  }

  lemma WriteKeepsLog(s: State, outcome: WriteOutcome)
    requires Inv(s) && s.consumer.Holding?
    ensures var t := AfterWrite(s, s.consumer.envelope, outcome);
            LogInv(t.consumer, t.writer, t.meta.written, Taken(s)) && ControlInv(t)
  {
    AppendExtendsLog(s.writer, s.consumer.envelope);
  }

  lemma StepKeepsLogAtClose(s: State, step: Step)
    requires Inv(s) && Enabled(s, step) && (step.CloseBegin? || step.CloseFinish? || step.CloseTimeout?)
    ensures LogInv(Apply(s, step).consumer, Apply(s, step).writer, Apply(s, step).meta.written, Taken(s))
    ensures Taken(s) + [] == Taken(s)
  {
    if s.writer.sealed == [] {
      SealKeepsLog(s.writer);
    }
  }

  lemma StepKeepsLog(s: State, step: Step)
    requires Inv(s) && Enabled(s, step) && !step.Write?
    ensures var taken := Taken(s) + if step.Take? then [s.queue.items[0]] else [];
            LogInv(Apply(s, step).consumer, Apply(s, step).writer, Apply(s, step).meta.written, taken)
  {
    if step.CloseBegin? || step.CloseFinish? || step.CloseTimeout? {
      StepKeepsLogAtClose(s, step);
    }
    assert Taken(s) + [] == Taken(s);
  }

  lemma CloseKeepsControl(s: State, step: Step)
    requires Inv(s) && Enabled(s, step) && (step.CloseBegin? || step.CloseFinish? || step.CloseTimeout?)
    ensures ControlInv(Apply(s, step))
  {
  }

  lemma StepKeepsControl(s: State, step: Step)
    requires Inv(s) && Enabled(s, step) && !step.Write?
    ensures ControlInv(Apply(s, step))
  {
    if step.CloseBegin? || step.CloseFinish? || step.CloseTimeout? {
      CloseKeepsControl(s, step);
    }
  }

  /** Every step keeps the invariant. */
  lemma StepKeepsInv(s: State, step: Step)
    requires Inv(s) && Enabled(s, step)
    ensures Inv(Apply(s, step))
  {
    StepKeepsProducers(s, step);
    StepKeepsQueue(s, step);
    StepKeepsMeta(s, step);
    if step.Write? {
      WriteKeepsLog(s, step.outcome);
      assert Taken(Apply(s, step)) == Taken(s);
    } else {
      StepKeepsLog(s, step);
      StepKeepsControl(s, step);
    }
  }

  lemma {:induction false} RunKeepsInv(s: State, steps: seq<Step>)
    requires Inv(s) && Runnable(s, steps)
    ensures Inv(Run(s, steps))
    decreases |steps|
  {
    if steps != [] {
      StepKeepsInv(s, steps[0]);
      RunKeepsInv(Apply(s, steps[0]), steps[1..]);
    }
  }

  lemma ReachableInv(s: State)
    requires Reachable(s)
    ensures Inv(s)
  {
    var capacity: nat, steps: seq<Step> :|
      capacity > 0 && Runnable(InitialState(capacity), steps) && Run(InitialState(capacity), steps) == s;
    InitialInv(capacity);
    RunKeepsInv(InitialState(capacity), steps);
  }
}
