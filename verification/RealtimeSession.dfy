/**
 The objects of realtime_session.py and realtime_envelope.py.  A method is one atomic step: the code of the
 source between two suspending awaits.  Its contract says which step of the session protocol it is, so every
 result about protocol runs is a result about any interleaving of these calls.
 */
module RealtimeSession {
  import opened Common
  import opened SessionProtocol

  class BoundedWsEnvelopeQueue {
    const capacity: nat
    var items: seq<Envelope>
    var messagesEnqueued: nat
    var messagesDequeued: nat
    var highWatermark: nat

    function View(): QueueState
      reads this
    {
      QueueState(capacity, items, messagesEnqueued, messagesDequeued, highWatermark)
    }

    constructor (maxsize: nat)
      requires maxsize > 0
      ensures View() == QueueState(maxsize, [], 0, 0, 0)
    {
      capacity := maxsize;
      items, messagesEnqueued, messagesDequeued, highWatermark := [], 0, 0, 0;
    }

    /** `put` from the moment the inner queue has room. */
    method Put(e: Envelope)
      requires !View().Full()
      modifies this
      ensures View() == old(View()).Put(e)
    {
      items := items + [e];
      messagesEnqueued := messagesEnqueued + 1;
      var qsize := |items|;
      if qsize > highWatermark {
        highWatermark := qsize;
      }
    }

    method Get() returns (e: Envelope)
      requires items != []
      modifies this
      ensures e == old(items)[0] && View() == old(View()).Get()
    {
      e := items[0];
      items := items[1..];
      messagesDequeued := messagesDequeued + 1;
    }
  }

  class RawWsSegmentWriter {
    var handle: Option<seq<Envelope>>   // the lines of the open partial file
    var sealed: seq<seq<Envelope>>
    var count: nat

    function View(): WriterState
      reads this
    {
      WriterState(handle, sealed)
    }

    constructor ()
      ensures View() == WriterState(None, []) && count == 0
    {
      handle, sealed, count := None, [], 0;
    }

    method EnsureOpen()
      modifies this
      ensures handle == Some(if old(handle).None? then [] else old(handle).value)
      ensures sealed == old(sealed) && count == old(count)
    {
      if handle.None? {
        handle := Some([]);
      }
    }

    /** False when the write raises; `lineInFile` then says whether the line reached the file. */
    method WriteEnvelope(e: Envelope, outcome: WriteOutcome) returns (ok: bool)
      modifies this
      ensures ok == !outcome.WriteFailed?
      ensures View() == if ok || outcome.lineInFile then old(View()).Append(e) else old(View())
      ensures count == old(count) + if ok then 1 else 0
    {
      if outcome == WriteFailed(false) {
        return false;
      }
      EnsureOpen();
      handle := Some(handle.value + [e]);
      if outcome.WriteFailed? {
        return false;
      }
      count := count + 1;
      return true;
    }

    method Seal() returns (segment: Option<seq<Envelope>>)
      modifies this
      ensures View() == old(View()).Seal() && segment == old(handle) && count == old(count)
    {
      segment := handle;
      if handle.Some? {
        sealed := sealed + [handle.value];
        handle := None;
      }
    }
  }

  datatype PushResult = Rejected | Inserted | Suspended

  datatype CloseResult = Raised | Awaiting | Returned(segment: Option<seq<Envelope>>)

  class RealtimeSessionLifecycle {
    const queue: BoundedWsEnvelopeQueue
    const writer: RawWsSegmentWriter
    var phase: Phase
    var stopRequested: bool
    var consumer: Consumer
    var closers: nat
    var blocked: seq<Envelope>
    var envelopesReceived: nat
    var envelopesEnqueued: nat
    var envelopesWritten: nat
    var queueHighWatermark: nat
    ghost var history: History

    ghost function View(): State
      reads this, queue, writer
    {
      State(phase, stopRequested, consumer, closers, queue.View(), blocked, writer.View(),
            Meta(envelopesReceived, envelopesEnqueued, envelopesWritten, queueHighWatermark), history)
    }

    constructor (queueMaxsize: nat)
      requires queueMaxsize > 0
      ensures View() == InitialState(queueMaxsize) && Inv(View())
      ensures fresh(queue) && fresh(writer)
    {
      queue := new BoundedWsEnvelopeQueue(queueMaxsize);
      writer := new RawWsSegmentWriter();
      phase, stopRequested, consumer, closers, blocked := Created, false, NotStarted, 0, [];
      envelopesReceived, envelopesEnqueued, envelopesWritten, queueHighWatermark := 0, 0, 0, 0;
      history := History([], [], []);
      new;
      InitialInv(queueMaxsize);
    }

    method TransitionTo(target: Phase) returns (ok: bool)
      modifies this
      ensures ok == ValidTransition(old(phase), target)
      ensures View() == if ok then old(View()).(phase := target) else old(View())
    {
      if !ValidTransition(phase, target) {
        return false;
      }
      phase := target;
      return true;
    }

    /** The tail of `push_envelope` after the queue took the envelope. */
    method InsertionDone(e: Envelope)
      requires !queue.View().Full()
      modifies this, queue
      ensures View() == Enqueue(old(View()), e)
    {
      queue.Put(e);
      envelopesEnqueued := envelopesEnqueued + 1;
      if queue.highWatermark > queueHighWatermark {
        queueHighWatermark := queue.highWatermark;
      }
      history := history.(accepted := history.accepted + [e]);
    }

    method PushEnvelope(e: Envelope) returns (r: PushResult)
      modifies this, queue
      ensures r.Rejected? <==> !Enabled(old(View()), Push(e))
      ensures View() == if r.Rejected? then old(View()) else Apply(old(View()), Push(e))
      ensures r.Suspended? <==> !r.Rejected? && old(queue.View()).Full()
    {
      if phase != Connecting && phase != Active {
        return Rejected;
      }
      envelopesReceived := envelopesReceived + 1;
      history := history.(offered := history.offered + [e]);
      if queue.View().Full() {
        blocked := blocked + [e];
        return Suspended;
      }
      InsertionDone(e);
      return Inserted;
    }

    method ResumePut(i: nat)
      requires Enabled(View(), Step.ResumePut(i))
      modifies this, queue
      ensures View() == Apply(old(View()), Step.ResumePut(i))
    {
      var e := blocked[i];
      blocked := Without(blocked, i);
      InsertionDone(e);
    }

    method CancelPut(i: nat)
      requires Enabled(View(), Step.CancelPut(i))
      modifies this
      ensures View() == Apply(old(View()), Step.CancelPut(i))
    {
      history := history.(abandoned := history.abandoned + [blocked[i]]);
      blocked := Without(blocked, i);
    }

    /** Starts the consumer task, or a new one once the last has ended; a running one is left alone. */
    method StartConsumer()
      modifies this
      ensures View() == if old(consumer).Running() then old(View()) else old(View()).(consumer := AtTop)
      ensures old(consumer).NotStarted? ==> View() == Apply(old(View()), Step.StartConsumer)
    {
      if consumer.Running() {
        return;
      }
      consumer := AtTop;
    }

    /** The loop head: leave on a stop request with an empty queue, else wait for an envelope. */
    method ConsumerTop()
      requires consumer.AtTop?
      modifies this
      ensures View() == Apply(old(View()), LoopTop)
    {
      consumer := if stopRequested && queue.items == [] then Finished else Waiting;
    }

    method ConsumerTake()
      requires Enabled(View(), Take)
      modifies this, queue
      ensures View() == Apply(old(View()), Take)
    {
      var e := queue.Get();
      consumer := Holding(e);
    }

    method ConsumerGetTimeout()
      requires consumer.Waiting?
      modifies this
      ensures View() == Apply(old(View()), GetTimeout)
    {
      consumer := AtTop;
    }

    /** Write and normalize the held envelope; any exception fails the session and ends the task. */
    method ConsumerWrite(outcome: WriteOutcome)
      requires consumer.Holding?
      modifies this, writer
      ensures View() == Apply(old(View()), Write(outcome))
    {
      var e := consumer.envelope;
      var ok := writer.WriteEnvelope(e, outcome);
      if ok {
        envelopesWritten := envelopesWritten + 1;
      }
      if outcome.Written? {
        consumer := AtTop;
      } else {
        var _ := TransitionTo(Failed);
        consumer := Crashed;
      }
    }

    method CancelConsumer()
      requires consumer.Suspended()
      modifies this
      ensures View() == Apply(old(View()), Step.CancelConsumer)
    {
      consumer := Cancelled;
    }

    method SealAndFinish() returns (segment: Option<seq<Envelope>>)
      modifies this, writer
      ensures View() == SealAndClose(old(View())) && segment == old(writer.handle)
    {
      segment := writer.Seal();
      if phase == Draining {
        var _ := TransitionTo(Phase.Closed);
      }
    }

    /** `close_session` up to its await of the consumer task. */
    method CloseSession() returns (r: CloseResult)
      modifies this, writer
      ensures View() == Apply(old(View()), CloseBegin)
      ensures r.Raised? <==> old(phase) == Connecting
      ensures r.Returned? <==> old(phase) != Connecting && old(consumer).NotStarted?
    {
      stopRequested := true;
      if phase == Connecting || phase == Active {
        var ok := TransitionTo(Draining);
        if !ok {
          return Raised;
        }
      }
      if !consumer.NotStarted? {
        closers := closers + 1;
        return Awaiting;
      }
      var segment := SealAndFinish();
      return Returned(segment);
    }

    /** The drain timeout: cancel the consumer, fail the session, seal what is there. */
    method GiveUp() returns (r: CloseResult)
      modifies this, writer
      ensures View() == if ValidTransition(old(phase), Failed)
                        then old(View()).(consumer := Cancelled, phase := Failed, writer := old(writer.View()).Seal())
                        else old(View()).(consumer := Cancelled)
      ensures r.Raised? <==> !ValidTransition(old(phase), Failed)
      ensures !r.Raised? ==> r == Returned(old(writer.handle)) && writer.handle.None?
    {
      consumer := Cancelled;
      var ok := TransitionTo(Failed);
      if !ok {
        return Raised;
      }
      var segment := writer.Seal();
      return Returned(segment);
    }

    /** The rest of `close_session` once its await returned, raised, or ran into the drain timeout. */
    method CloseResumed() returns (r: CloseResult)
      requires closers > 0 && !consumer.Holding? && !consumer.NotStarted?
      modifies this, writer
      ensures View() == Apply(old(View()), if old(consumer).Finished? then CloseFinish
                                           else if old(consumer).Dead() then CloseRaise else CloseTimeout)
      ensures r.Returned? ==> r.segment == old(writer.handle) && writer.handle.None?
      ensures r.Returned? && old(consumer).Suspended() ==> phase == Failed && consumer == Cancelled
      ensures r.Returned? && old(consumer).Finished? && old(phase) == Draining ==> phase == Phase.Closed
      ensures r.Raised? <==> old(consumer).Dead() || (old(consumer).Suspended() && !ValidTransition(old(phase), Failed))
    {
      closers := closers - 1;
      if consumer.Dead() {
        return Raised;
      }
      if consumer.Suspended() {
        r := GiveUp();
        return;
      }
      var segment := SealAndFinish();
      return Returned(segment);
    }
  }
}
