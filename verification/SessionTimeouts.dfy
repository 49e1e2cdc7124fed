/** What a drain timeout leaves behind, that a safe close can finish, and what the session's telemetry means. */
module SessionTimeouts {
  import opened Common
  import opened SessionProtocol
  import opened SessionTheorems

  // ---------------------------------------------------------------- the drain timeout

  /** A close that gives up on a suspended consumer while DRAINING: the session fails, and every line is sealed. */
  lemma DrainTimeoutSeals(s: State)
    requires Inv(s) && s.closers > 0 && s.consumer.Suspended() && s.phase == Draining
    ensures var t := Apply(s, CloseTimeout);
            && t.phase == Failed && t.consumer == Cancelled && t.closers == s.closers - 1 && t.stopRequested
            && t.writer.partial.None? && t.writer.Log() == s.writer.Log() && t.writer.sealed == Segments(s.writer.Log())
            && t.queue == s.queue && t.blocked == s.blocked && t.meta == s.meta && t.history == s.history
  {
    SealedSegments(s.writer);
  }

  lemma SealedSegments(w: WriterState)
    requires w.sealed == [] && (w.partial.Some? ==> w.partial.value != [])
    ensures w.Seal().partial.None? && w.Seal().Log() == w.Log() && w.Seal().sealed == Segments(w.Log())
  {
    assert w.partial.Some? ==> w.Log() == w.partial.value;
  }

  /** What a session knows when its consumer is suspended: the log is counted, and the rest is queued. */
  lemma SuspendedAccounts(s: State)
    requires Inv(s) && s.consumer.Suspended()
    ensures |s.writer.Log()| == s.meta.written && s.history.accepted == s.writer.Log() + s.queue.items
  {
    assert s.history.accepted == Taken(s) + s.queue.items;
  }

  /** In any other phase with a pending close the timeout only cancels the consumer; the transition raises. */
  lemma LateTimeoutRaises(s: State)
    requires Enabled(s, CloseTimeout) && (s.phase == Phase.Closed || s.phase == Failed)
    ensures Apply(s, CloseTimeout) == s.(closers := s.closers - 1, consumer := Cancelled)
  {
  }

  predicate TimedOut(s: State) {
    s.phase == Failed && s.consumer == Cancelled
  }

  /** Nothing that happens later touches the segments of a timed-out session. */
  lemma {:induction false} TimedOutStays(s: State, steps: seq<Step>)
    requires TimedOut(s) && Runnable(s, steps)
    ensures TimedOut(Run(s, steps)) && Run(s, steps).writer == s.writer && Run(s, steps).meta.written == s.meta.written
    decreases |steps|
  {
    if steps != [] {
      TimedOutStays(Apply(s, steps[0]), steps[1..]);
    }
  }

  lemma AfterTimeout(u: State, later: seq<Step>)
    requires Inv(u) && u.phase == Draining && u.closers > 0 && u.consumer.Suspended()
    requires Runnable(Apply(u, CloseTimeout), later)
    ensures var t := Run(Apply(u, CloseTimeout), later);
            && t.phase == Failed && t.writer.partial.None?
            && t.writer.sealed == Segments(u.writer.Log()) && |u.writer.Log()| == t.meta.written
            && u.history.accepted == u.writer.Log() + u.queue.items
  {
    DrainTimeoutSeals(u);
    SuspendedAccounts(u);
    TimedOutStays(Apply(u, CloseTimeout), later);
  }

  /**
   Main result: from any reachable ACTIVE session, on any schedule, a close that runs into the drain timeout ends
   FAILED with every written line in one sealed segment, in order, and leaves exactly the queue unwritten.
   */
  lemma TimedOutCloseSeals(s: State, between: seq<Step>, later: seq<Step>)
    requires Reachable(s) && s.phase == Active
    requires Runnable(Apply(s, CloseBegin), between)
    requires var u := Run(Apply(s, CloseBegin), between);
             u.phase == Draining && u.closers > 0 && u.consumer.Suspended() && Runnable(Apply(u, CloseTimeout), later)
    ensures var u := Run(Apply(s, CloseBegin), between);
            var t := Run(Apply(u, CloseTimeout), later);
            && t.phase == Failed && t.writer.partial.None?
            && t.writer.sealed == Segments(u.writer.Log()) && |u.writer.Log()| == t.meta.written
            && u.history.accepted == u.writer.Log() + u.queue.items
  {
    ReachableInv(s);
    StepKeepsInv(s, CloseBegin);
    RunKeepsInv(Apply(s, CloseBegin), between);
    AfterTimeout(Run(Apply(s, CloseBegin), between), later);
  }

  /** A timeout is always possible while DRAINING with a suspended consumer, so the premise can occur. */
  lemma TimeoutCanOccur(e: Envelope) returns (steps: seq<Step>, u: State)
    ensures Leads(steps, u) && u.phase == Draining && u.closers > 0 && u.consumer.Suspended()
    ensures u.writer.Log() == [e] && u.writer.sealed == []
  {
    steps := ReachWaiting();
    u := Waiting1(Connecting);
    Then(steps, u, Push(e), Apply(u, Push(e)));
    steps, u := steps + [Push(e)], Apply(u, Push(e));
    Then(steps, u, Take, Apply(u, Take));
    steps, u := steps + [Take], Apply(u, Take);
    Then(steps, u, Write(Written), Apply(u, Write(Written)));
    steps, u := steps + [Write(Written)], Apply(u, Write(Written));
    Then(steps, u, Advance(Active), Apply(u, Advance(Active)));
    steps, u := steps + [Advance(Active)], Apply(u, Advance(Active));
    Then(steps, u, CloseBegin, Apply(u, CloseBegin));
    steps, u := steps + [CloseBegin], Apply(u, CloseBegin);
  }

  // ---------------------------------------------------------------- completing a close

  /** A safe close of a session whose consumer runs has a schedule that reaches CLOSED, losing nothing. */
  lemma SafeCloseCompletes(s: State) returns (steps: seq<Step>)
    requires Reachable(s) && s.phase == Active && s.consumer.Running() && s.blocked == []
    ensures Runnable(Apply(s, CloseBegin), steps)
    ensures Run(Apply(s, CloseBegin), steps).phase == Phase.Closed && Lossless(Run(Apply(s, CloseBegin), steps))
  {
    ReachableInv(s);
    StepKeepsInv(s, CloseBegin);
    var c := Apply(s, CloseBegin);
    var drain := DrainRun(c);
    RunAppend(c, drain, CloseFinish);
    steps := drain + [CloseFinish];
    ClosingRun(c, steps);
    ClosedIsLossless(Run(c, steps));
  }

  // ---------------------------------------------------------------- phases

  /** The phases of an undisturbed session, in order. */
  function Position(p: Phase): nat {
    match p
    case Created => 0
    case Connecting => 1
    case Active => 2
    case Draining => 3
    case Closed => 4
    case Failed => 5
  }

  /** A phase that is not terminal goes to the next one or fails, and no other move is valid. */
  lemma TransitionsExactly(current: Phase, target: Phase)
    ensures ValidTransition(current, target)
            <==> !Terminal(current) && (target == Failed || Position(target) == Position(current) + 1)
  {
  }

  // ---------------------------------------------------------------- the high watermark

  /** The largest queue seen in any state of a run. */
  function LargestQueue(s: State, steps: seq<Step>): nat
    requires Runnable(s, steps)
    decreases |steps|
  {
    if steps == [] then |s.queue.items|
    else
      var later := LargestQueue(Apply(s, steps[0]), steps[1..]);
      if later > |s.queue.items| then later else |s.queue.items|
  }

  function Greater(a: nat, b: nat): nat {
    if a > b then a else b
  }

  lemma StepMovesWatermark(s: State, step: Step)
    requires Enabled(s, step) && |s.queue.items| <= s.queue.highWatermark
    ensures Apply(s, step).queue.highWatermark == Greater(s.queue.highWatermark, |Apply(s, step).queue.items|)
  {
  }

  lemma {:induction false} RunMovesWatermark(s: State, steps: seq<Step>)
    requires Runnable(s, steps) && |s.queue.items| <= s.queue.highWatermark
    ensures Run(s, steps).queue.highWatermark == Greater(s.queue.highWatermark, LargestQueue(s, steps))
    decreases |steps|
  {
    if steps != [] {
      StepMovesWatermark(s, steps[0]);
      RunMovesWatermark(Apply(s, steps[0]), steps[1..]);
    }
  }

  /** The high watermark, of the queue and of the session, is the largest queue size the session ever had. */
  lemma WatermarkExactly(capacity: nat, steps: seq<Step>)
    requires capacity > 0 && Runnable(InitialState(capacity), steps)
    ensures Run(InitialState(capacity), steps).queue.highWatermark == LargestQueue(InitialState(capacity), steps)
    ensures Run(InitialState(capacity), steps).meta.watermark == LargestQueue(InitialState(capacity), steps)
  {
    InitialInv(capacity);
    RunKeepsInv(InitialState(capacity), steps);
    RunMovesWatermark(InitialState(capacity), steps);
  }

  // ---------------------------------------------------------------- single steps, column by column

  /** One write: the line is in the file unless the write failed without it, it is counted unless the write failed,
      and anything but a full success ends the consumer and fails a session that is not over. */
  lemma WriteExactly(s: State, outcome: WriteOutcome)
    requires Inv(s) && s.consumer.Holding?
    ensures var t := Apply(s, Write(outcome));
            && t.writer.Log() == s.writer.Log() + (if outcome == WriteFailed(false) then [] else [s.consumer.envelope])
            && t.meta.written == s.meta.written + (if outcome.WriteFailed? then 0 else 1)
            && t.consumer == (if outcome == Written then AtTop else Crashed)
            && t.phase == (if outcome == Written || Terminal(s.phase) then s.phase else Failed)
            && t.queue == s.queue && t.history == s.history && t.writer.sealed == s.writer.sealed
  {
    AppendExtendsLog(s.writer, s.consumer.envelope);
    assert s.writer.Log() + [] == s.writer.Log();
  }

  /** One push of an open session: received at once, then inserted, or suspended behind the earlier ones. */
  lemma PushExactly(s: State, e: Envelope)
    requires Enabled(s, Push(e))
    ensures var t := Apply(s, Push(e));
            && t.meta.received == s.meta.received + 1 && t.history.offered == s.history.offered + [e]
            && (if |s.queue.items| < s.queue.capacity then
                  && t.queue.items == s.queue.items + [e] && t.blocked == s.blocked
                  && t.meta.enqueued == s.meta.enqueued + 1 && t.queue.enqueued == s.queue.enqueued + 1
                else
                  && t.queue == s.queue && t.blocked == s.blocked + [e] && t.meta.enqueued == s.meta.enqueued)
            && t.phase == s.phase && t.consumer == s.consumer && t.writer == s.writer
  {
  }

  /** Where a close goes first: it always asks the consumer to stop, drains an ACTIVE session, waits for a started
      consumer, and otherwise seals at once. */
  lemma CloseBeginExactly(s: State)
    requires Inv(s)
    ensures var t := Apply(s, CloseBegin);
            && t.stopRequested && t.queue == s.queue && t.blocked == s.blocked && t.consumer == s.consumer
            && (s.phase == Connecting ==> t == s.(stopRequested := true))
            && (s.phase != Connecting && !s.consumer.NotStarted? ==>
                  && t.closers == s.closers + 1 && t.writer == s.writer
                  && t.phase == (if s.phase == Active then Draining else s.phase))
            && (s.phase != Connecting && s.consumer.NotStarted? ==>
                  && t.closers == s.closers && t.writer.partial.None?
                  && t.phase == (if s.phase == Active then Phase.Closed else s.phase))
  {
  }
}
