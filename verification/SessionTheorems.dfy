/** What every run of the session protocol keeps, and exactly when a graceful close loses nothing. */
module SessionTheorems {
  import opened Common
  import opened SessionProtocol

  // ---------------------------------------------------------------- every reachable state

  function Held(c: Consumer): seq<Envelope> {
    if c.Holding? then [c.envelope] else []
  }

  lemma PushesAreCounted(s: State)
    requires Inv(s)
    ensures |s.history.offered| == |s.history.accepted| + |s.blocked| + |s.history.abandoned|
  {
    var h := s.history;
    assert |multiset(h.offered)| == |multiset(h.accepted)| + |multiset(s.blocked)| + |multiset(h.abandoned)|;
  }

  /**
   The insertions are, in order, the lines on disk, the envelope in the consumer's hands and the queue; a
   crash can only cost the one envelope the consumer was holding.
   */
  lemma InsertionsAreLogHeldQueue(s: State)
    requires Reachable(s)
    ensures var log, accepted := s.writer.Log(), s.history.accepted;
            if s.consumer.Crashed? then
              log <= accepted && |accepted| - |s.queue.items| - |log| in {0, 1}
              && accepted[|accepted| - |s.queue.items|..] == s.queue.items
            else accepted == log + Held(s.consumer) + s.queue.items
    ensures |s.queue.items| <= s.queue.capacity && s.queue.highWatermark <= s.queue.capacity
    ensures s.meta.written <= s.queue.dequeued <= s.meta.enqueued <= s.meta.received
    ensures |s.writer.sealed| <= 1
  {
    ReachableInv(s);
    PushesAreCounted(s);
    assert s.history.accepted == Taken(s) + s.queue.items;
  }

  predicate Terminal(p: Phase) {
    p == Phase.Closed || p == Failed
  }

  /** CLOSED and FAILED are never left. */
  lemma {:induction false} TerminalPhasesAbsorb(s: State, steps: seq<Step>)
    requires Terminal(s.phase) && Runnable(s, steps)
    ensures Run(s, steps).phase == s.phase
    decreases |steps|
  {
    if steps != [] {
      TerminalPhasesAbsorb(Apply(s, steps[0]), steps[1..]);
    }
  }

  /** Once the consumer crashed, no step seals the segment: close_session only re-raises. */
  lemma {:induction false} CrashedSessionIsNeverSealed(s: State, steps: seq<Step>)
    requires Inv(s) && s.consumer.Crashed? && Runnable(s, steps)
    ensures Run(s, steps).consumer.Crashed?
    ensures Run(s, steps).writer == s.writer && s.writer.sealed == []
    decreases |steps|
  {
    if steps != [] {
      StepKeepsInv(s, steps[0]);
      CrashedSessionIsNeverSealed(Apply(s, steps[0]), steps[1..]);
    }
  }

  // ---------------------------------------------------------------- closing without loss

  /** The sealed segment holds every push that was not cancelled, exactly once, in insertion order. */
  ghost predicate Lossless(s: State) {
    && s.writer.partial.None?
    && s.writer.Log() == s.history.accepted
    && multiset(s.history.offered) == multiset(s.writer.Log()) + multiset(s.history.abandoned)
  }

  /** What a caller of close_session can look at: nothing in flight, and a live consumer unless nothing is queued. */
  predicate SafeToClose(s: State) {
    s.consumer.Dead() || (s.blocked == [] && (s.consumer.Running() || s.queue.items == []))
  }

  /** Whatever happens after the close began, reaching CLOSED means nothing was lost. */
  ghost predicate CloseIsLossless(s: State) {
    forall steps ::
      Runnable(Apply(s, CloseBegin), steps) && Run(Apply(s, CloseBegin), steps).phase == Phase.Closed
      ==> Lossless(Run(Apply(s, CloseBegin), steps))
  }

  /** Holds from the start of a safe close on. */
  predicate ClosingState(s: State) {
    && (s.phase == Draining || Terminal(s.phase))
    && (!s.consumer.Dead() ==> s.blocked == [])
    && (s.consumer.Finished? || s.consumer.NotStarted? ==> s.queue.items == [])
    && (s.phase == Phase.Closed ==>
          && s.blocked == [] && s.queue.items == [] && s.writer.partial.None?
          && !s.consumer.Holding? && !s.consumer.Crashed?)
  }

  lemma ClosingStateStep(s: State, step: Step)
    requires ControlInv(s) && ClosingState(s) && Enabled(s, step)
    ensures ClosingState(Apply(s, step))
  {
  }

  ghost predicate Closing(s: State) {
    Inv(s) && ClosingState(s)
  }

  lemma ClosingStep(s: State, step: Step)
    requires Closing(s) && Enabled(s, step)
    ensures Closing(Apply(s, step))
  {
    StepKeepsInv(s, step);
    ClosingStateStep(s, step);
  }

  lemma {:induction false} ClosingRun(s: State, steps: seq<Step>)
    requires Closing(s) && Runnable(s, steps)
    ensures Closing(Run(s, steps))
    decreases |steps|
  {
    if steps != [] {
      ClosingStep(s, steps[0]);
      ClosingRun(Apply(s, steps[0]), steps[1..]);
    }
  }

  lemma ClosedIsLossless(s: State)
    requires Closing(s) && s.phase == Phase.Closed
    ensures Lossless(s)
    ensures s.meta.written == s.meta.enqueued && s.meta.received == s.meta.enqueued + |s.history.abandoned|
  {
    assert s.history.accepted == Taken(s) + s.queue.items;
    assert Taken(s) == s.writer.Log();
    PushesAreCounted(s);
  }

  /** The consumer, left alone after a stop request, empties the queue and ends. */
  lemma {:induction false} DrainRun(s: State) returns (steps: seq<Step>)
    requires Inv(s) && s.stopRequested && s.consumer.Running()
    ensures Runnable(s, steps)
    ensures Run(s, steps).consumer == Finished
    ensures Run(s, steps).phase == s.phase && Run(s, steps).closers == s.closers && Run(s, steps).blocked == s.blocked
    decreases |s.queue.items|, if s.consumer.Holding? then 2 else if s.consumer.AtTop? then 1 else 0,
              if s.consumer.Holding? then 0 else 1
  {
    var step;
    if s.consumer.Holding? {
      step := Write(Written);
    } else if s.consumer.AtTop? {
      step := LoopTop;
    } else if s.queue.items == [] {
      step := GetTimeout;
      var t := Apply(s, step);
      assert Run(t, [LoopTop]) == Run(Apply(t, LoopTop), []);
      steps := [GetTimeout, LoopTop];
      assert steps[1..] == [LoopTop];
      return;
    } else {
      step := Take;
    }
    StepKeepsInv(s, step);
    if Apply(s, step).consumer.Finished? {
      steps := [step];
      assert Run(s, steps) == Run(Apply(s, step), []);
    } else {
      var rest := DrainRun(Apply(s, step));
      steps := [step] + rest;
      assert steps[1..] == rest;
    }
  }

  lemma {:induction false} RunAppend(s: State, steps: seq<Step>, step: Step)
    requires Runnable(s, steps) && Enabled(Run(s, steps), step)
    ensures Runnable(s, steps + [step]) && Run(s, steps + [step]) == Apply(Run(s, steps), step)
    decreases |steps|
  {
    if steps != [] {
      RunAppend(Apply(s, steps[0]), steps[1..], step);
      assert (steps + [step])[1..] == steps[1..] + [step];
    } else {
      assert Run(s, [step]) == Run(Apply(s, step), []);
    }
  }

  /** An unsafe close has a run that reaches CLOSED with an envelope missing from the segment. */
  lemma UnsafeCloseLoses(s: State) returns (steps: seq<Step>)
    requires Inv(s) && s.phase == Active && !SafeToClose(s)
    ensures Runnable(Apply(s, CloseBegin), steps)
    ensures Run(Apply(s, CloseBegin), steps).phase == Phase.Closed && !Lossless(Run(Apply(s, CloseBegin), steps))
  {
    var t := Apply(s, CloseBegin);
    StepKeepsInv(s, CloseBegin);
    if s.consumer.NotStarted? {
      steps := [];
      LossWitness(t);
    } else {
      if s.consumer.Running() {
        steps := DrainRun(t);
      } else {
        steps := [];
      }
      var u := Run(t, steps);
      RunKeepsInv(t, steps);
      RunAppend(t, steps, CloseFinish);
      StepKeepsInv(u, CloseFinish);
      steps := steps + [CloseFinish];
      LossWitness(Apply(u, CloseFinish));
    }
  }

  lemma LossWitness(s: State)
    requires Inv(s) && (s.blocked != [] || s.queue.items != []) && !s.consumer.Holding?
    ensures !Lossless(s)
  {
    PushesAreCounted(s);
    assert |Taken(s)| + |s.queue.items| == |s.history.accepted|;
    assert |multiset(s.writer.Log()) + multiset(s.history.abandoned)| == |s.writer.Log()| + |s.history.abandoned|;
  }

  /** Main result: from ACTIVE, `close_session` is lossless on every schedule exactly when it is safe to close. */
  lemma CloseLosslessExactly(s: State)
    requires Reachable(s) && s.phase == Active
    ensures CloseIsLossless(s) <==> SafeToClose(s)
  {
    ReachableInv(s);
    var t := Apply(s, CloseBegin);
    if SafeToClose(s) {
      forall steps | Runnable(t, steps) && Run(t, steps).phase == Phase.Closed
        ensures Lossless(Run(t, steps))
      {
        ClosingRun(t, steps);
        ClosedIsLossless(Run(t, steps));
      }
    } else {
      var steps := UnsafeCloseLoses(s);
      assert !Lossless(Run(t, steps));
    }
  }

  // ---------------------------------------------------------------- order of pushes

  /** Suspended pushes resume oldest first, and none is cancelled. */
  predicate OldestFirst(s: State, steps: seq<Step>)
    requires Runnable(s, steps)
    decreases |steps|
  {
    steps == [] ||
    (&& (steps[0].ResumePut? ==> steps[0].index == 0)
     && !steps[0].CancelPut?
     && OldestFirst(Apply(s, steps[0]), steps[1..]))
  }

  /** A push that finds a free slot while an earlier push is still suspended. */
  predicate Overtakes(s: State, step: Step) {
    step.Push? && s.blocked != [] && !s.queue.Full()
  }

  predicate NeverOvertakes(s: State, steps: seq<Step>)
    requires Runnable(s, steps)
    decreases |steps|
  {
    steps == [] || (!Overtakes(s, steps[0]) && NeverOvertakes(Apply(s, steps[0]), steps[1..]))
  }

  /** Everything offered was inserted in the order offered, or waits in that order. */
  predicate PushOrder(s: State) {
    s.history.offered == s.history.accepted + s.blocked
  }

  predicate DistinctEnvelopes(es: seq<Envelope>) {
    forall i, j :: 0 <= i < j < |es| ==> es[i] != es[j]
  }

  /** The envelope inserted next is not the one offered next: order is lost, and no later step restores it. */
  predicate Misplaced(h: History) {
    exists k :: 0 <= k < |h.offered| && k < |h.accepted| && h.offered[k] != h.accepted[k]
  }

  lemma MisplacedIsUnordered(s: State)
    requires Misplaced(s.history)
    ensures !PushOrder(s)
  {
    var h := s.history;
    var k :| 0 <= k < |h.offered| && k < |h.accepted| && h.offered[k] != h.accepted[k];
    assert (h.accepted + s.blocked)[k] == h.accepted[k];
  }

  lemma HistoryGrows(s: State, step: Step)
    requires Enabled(s, step)
    ensures s.history.offered <= Apply(s, step).history.offered
    ensures s.history.accepted <= Apply(s, step).history.accepted
  {
  }

  lemma {:induction false} RunGrows(s: State, steps: seq<Step>)
    requires Runnable(s, steps)
    ensures s.history.offered <= Run(s, steps).history.offered
    ensures s.history.accepted <= Run(s, steps).history.accepted
    decreases |steps|
  {
    if steps != [] {
      HistoryGrows(s, steps[0]);
      RunGrows(Apply(s, steps[0]), steps[1..]);
    }
  }

  lemma MisplacedStays(a: History, b: History)
    requires Misplaced(a) && a.offered <= b.offered && a.accepted <= b.accepted
    ensures Misplaced(b)
  {
    var k :| 0 <= k < |a.offered| && k < |a.accepted| && a.offered[k] != a.accepted[k];
    assert b.offered[k] == a.offered[k] && b.accepted[k] == a.accepted[k];
  }

  lemma OvertakingMisplaces(s: State, step: Step)
    requires Enabled(s, step) && PushOrder(s) && Overtakes(s, step)
    requires DistinctEnvelopes(Apply(s, step).history.offered)
    ensures Misplaced(Apply(s, step).history)
  {
    var t := Apply(s, step);
    var k := |s.history.accepted|;
    assert t.history.accepted[k] == step.envelope;
    assert t.history.offered[k] == s.blocked[0] && t.history.offered[|s.history.offered|] == step.envelope;
  }

  /**
   Main result on order: with suspended pushes resumed oldest first, none cancelled and all envelopes distinct,
   a run keeps the order of its pushes if and only if no push overtook a suspended one.
   */
  lemma {:induction false} OrderKeptExactly(s: State, steps: seq<Step>)
    requires Runnable(s, steps) && OldestFirst(s, steps) && PushOrder(s)
    requires DistinctEnvelopes(Run(s, steps).history.offered)
    ensures PushOrder(Run(s, steps)) <==> NeverOvertakes(s, steps)
    decreases |steps|
  {
    if steps != [] {
      var t := Apply(s, steps[0]);
      RunGrows(t, steps[1..]);
      if Overtakes(s, steps[0]) {
        PrefixDistinct(t.history.offered, Run(s, steps).history.offered);
        OvertakingMisplaces(s, steps[0]);
        MisplacedStays(t.history, Run(s, steps).history);
        MisplacedIsUnordered(Run(s, steps));
      } else {
        OrderKeptExactly(t, steps[1..]);
      }
    }
  }

  lemma PrefixDistinct(a: seq<Envelope>, b: seq<Envelope>)
    requires a <= b && DistinctEnvelopes(b)
    ensures DistinctEnvelopes(a)
  {
  }

  /** Without overtaking the order is kept whatever the envelopes, and nothing is abandoned. */
  lemma {:induction false} NoOvertakingKeepsOrder(s: State, steps: seq<Step>)
    requires Runnable(s, steps) && OldestFirst(s, steps) && NeverOvertakes(s, steps) && PushOrder(s)
    requires s.history.abandoned == []
    ensures PushOrder(Run(s, steps)) && Run(s, steps).history.abandoned == []
    decreases |steps|
  {
    if steps != [] {
      NoOvertakingKeepsOrder(Apply(s, steps[0]), steps[1..]);
    }
  }

  lemma NoPushStep(s: State, step: Step)
    requires ClosingState(s) && s.blocked == [] && Enabled(s, step)
    ensures Apply(s, step).history == s.history && Apply(s, step).blocked == []
  {
  }

  lemma {:induction false} NoPushWhileClosing(s: State, steps: seq<Step>)
    requires Closing(s) && s.blocked == [] && Runnable(s, steps)
    ensures Run(s, steps).history == s.history && Run(s, steps).blocked == []
    decreases |steps|
  {
    if steps != [] {
      ClosingStep(s, steps[0]);
      NoPushStep(s, steps[0]);
      NoPushWhileClosing(Apply(s, steps[0]), steps[1..]);
    }
  }

  /** A lossless close after ordered pushes leaves exactly the pushed envelopes in one sealed segment. */
  lemma OrderedCloseConserves(s: State, after: seq<Step>)
    requires Inv(s) && s.phase == Active && SafeToClose(s) && !s.consumer.Dead()
    requires s.history.offered == s.history.accepted && s.history.abandoned == []
    requires Runnable(Apply(s, CloseBegin), after) && Run(Apply(s, CloseBegin), after).phase == Phase.Closed
    ensures var t := Run(Apply(s, CloseBegin), after);
            && t.writer.partial.None?
            && t.writer.sealed == Segments(s.history.offered)
            && t.history == s.history
            && t.meta.received == t.meta.enqueued == t.meta.written == |s.history.offered|
  {
    var c := Apply(s, CloseBegin);
    NoPushWhileClosing(c, after);
    ClosingRun(c, after);
    ClosedIsLossless(Run(c, after));
  }

  /** The session ran `before` from its creation and is closed, with no push in flight, on the schedule `after`. */
  predicate ClosedAfter(capacity: nat, before: seq<Step>, after: seq<Step>) {
    && capacity > 0
    && Runnable(InitialState(capacity), before) && OldestFirst(InitialState(capacity), before)
    && var s := Run(InitialState(capacity), before);
       && s.phase == Active && s.blocked == [] && s.consumer.Running()
       && Runnable(Apply(s, CloseBegin), after) && Run(Apply(s, CloseBegin), after).phase == Phase.Closed
  }

  function Segments(pushed: seq<Envelope>): seq<seq<Envelope>> {
    if pushed == [] then [] else [pushed]
  }

  /**
   End to end, concurrent producers included: suspended pushes resume oldest first, none overtakes another, none is
   in flight when a close begins with a running consumer.  Then the one sealed segment is exactly the pushed
   envelopes in push order, and received == enqueued == written.
   */
  lemma OrderedSessionConserves(capacity: nat, before: seq<Step>, after: seq<Step>)
    requires ClosedAfter(capacity, before, after) && NeverOvertakes(InitialState(capacity), before)
    ensures var s := Run(InitialState(capacity), before);
            var t := Run(Apply(s, CloseBegin), after);
            && t.writer.sealed == Segments(s.history.offered)
            && t.meta.received == t.meta.enqueued == t.meta.written == |s.history.offered|
  {
    InitialInv(capacity);
    RunKeepsInv(InitialState(capacity), before);
    NoOvertakingKeepsOrder(InitialState(capacity), before);
    var s := Run(InitialState(capacity), before);
    assert s.history.accepted + [] == s.history.accepted;
    OrderedCloseConserves(s, after);
  }

  /** What a safe close seals, in whatever order it was inserted. */
  lemma CloseSealsInsertions(s: State, after: seq<Step>)
    requires Inv(s) && s.phase == Active && SafeToClose(s) && s.blocked == []
    requires Runnable(Apply(s, CloseBegin), after) && Run(Apply(s, CloseBegin), after).phase == Phase.Closed
    ensures Run(Apply(s, CloseBegin), after).writer.Log() == s.history.accepted
    ensures |Run(Apply(s, CloseBegin), after).writer.sealed| <= 1
  {
    var c := Apply(s, CloseBegin);
    NoPushWhileClosing(c, after);
    ClosingRun(c, after);
    ClosedIsLossless(Run(c, after));
  }

  /** Main result: for distinct envelopes the sealed log is the pushed sequence if and only if no push overtook
   another. */
  lemma SealedInPushOrderExactly(capacity: nat, before: seq<Step>, after: seq<Step>)
    requires ClosedAfter(capacity, before, after)
    requires DistinctEnvelopes(Run(InitialState(capacity), before).history.offered)
    ensures var s := Run(InitialState(capacity), before);
            Run(Apply(s, CloseBegin), after).writer.Log() == s.history.offered
            <==> NeverOvertakes(InitialState(capacity), before)
  {
    InitialInv(capacity);
    RunKeepsInv(InitialState(capacity), before);
    OrderKeptExactly(InitialState(capacity), before);
    var s := Run(InitialState(capacity), before);
    CloseSealsInsertions(s, after);
    assert s.history.accepted + [] == s.history.accepted;
  }

  /** One producer at a time: no push starts while another is suspended, and none is cancelled. */
  predicate Sequential(s: State, steps: seq<Step>)
    requires Runnable(s, steps)
    decreases |steps|
  {
    steps == [] ||
    (&& (steps[0].Push? ==> s.blocked == [])
     && !steps[0].CancelPut?
     && Sequential(Apply(s, steps[0]), steps[1..]))
  }

  lemma {:induction false} SequentialNeverOvertakes(s: State, steps: seq<Step>)
    requires Runnable(s, steps) && Sequential(s, steps) && |s.blocked| <= 1
    ensures OldestFirst(s, steps) && NeverOvertakes(s, steps)
    decreases |steps|
  {
    if steps != [] {
      SequentialNeverOvertakes(Apply(s, steps[0]), steps[1..]);
    }
  }

  /** In particular, a producer that awaits each push finds its envelopes sealed in push order. */
  lemma SequentialSessionConserves(capacity: nat, before: seq<Step>, after: seq<Step>)
    requires capacity > 0
    requires Runnable(InitialState(capacity), before) && Sequential(InitialState(capacity), before)
    requires var s := Run(InitialState(capacity), before);
             && s.phase == Active && s.blocked == [] && s.consumer.Running()
             && Runnable(Apply(s, CloseBegin), after) && Run(Apply(s, CloseBegin), after).phase == Phase.Closed
    ensures var s := Run(InitialState(capacity), before);
            var t := Run(Apply(s, CloseBegin), after);
            && t.writer.sealed == Segments(s.history.offered)
            && t.meta.received == t.meta.enqueued == t.meta.written == |s.history.offered|
  {
    SequentialNeverOvertakes(InitialState(capacity), before);
    OrderedSessionConserves(capacity, before, after);
  }

  /** A run from a fresh session whose queue holds one envelope. */
  ghost predicate Leads(steps: seq<Step>, s: State) {
    Runnable(InitialState(1), steps) && Run(InitialState(1), steps) == s
  }

  lemma Then(steps: seq<Step>, s: State, step: Step, t: State)
    requires Leads(steps, s) && Enabled(s, step) && Apply(s, step) == t
    ensures Leads(steps + [step], t)
  {
    RunAppend(InitialState(1), steps, step);
  }

  /** A session in use: queue of one, consumer waiting, nothing pushed yet. */
  function Waiting1(phase: Phase): State {
    InitialState(1).(phase := phase, consumer := Waiting)
  }

  lemma ReachWaiting() returns (steps: seq<Step>)
    ensures Leads(steps, Waiting1(Connecting))
  {
    var s0 := InitialState(1);
    var s1 := s0.(phase := Connecting);
    var s2 := s1.(consumer := AtTop);
    Then([], s0, Advance(Connecting), s1);
    Then([Advance(Connecting)], s1, StartConsumer, s2);
    steps := [Advance(Connecting), StartConsumer];
    assert [Advance(Connecting)] + [StartConsumer] == steps;
    Then(steps, s2, LoopTop, Waiting1(Connecting));
    steps := steps + [LoopTop];
  }

  /** Concurrent producers can overtake each other: the slot freed for a suspended push is taken by a later one. */
  lemma ConcurrentPushesCanReorder(a: Envelope, b: Envelope, c: Envelope) returns (steps: seq<Step>, t: State)
    ensures Leads(steps, t)
    ensures t.history.offered == [a, b, c] && t.history.accepted == [a, c] && t.blocked == [b]
  {
    steps := ReachWaiting();
    var s := Waiting1(Connecting);
    Then(steps, s, Push(a), Apply(s, Push(a)));
    steps, s := steps + [Push(a)], Apply(s, Push(a));
    Then(steps, s, Push(b), Apply(s, Push(b)));
    steps, s := steps + [Push(b)], Apply(s, Push(b));
    Then(steps, s, Take, Apply(s, Take));
    steps, s := steps + [Take], Apply(s, Take);
    Then(steps, s, Push(c), Apply(s, Push(c)));
    steps, t := steps + [Push(c)], Apply(s, Push(c));
  }

  lemma ReachStranding() returns (steps: seq<Step>)
    ensures Leads(steps, InitialState(1).(phase := Active, stopRequested := true, consumer := Finished))
  {
    steps := ReachWaiting();
    var s := Waiting1(Connecting);
    var s1 := s.(stopRequested := true);
    var s2 := s1.(consumer := AtTop);
    var s3 := s2.(consumer := Finished);
    Then(steps, s, CloseBegin, s1);
    Then(steps + [CloseBegin], s1, GetTimeout, s2);
    steps := steps + [CloseBegin] + [GetTimeout];
    Then(steps, s2, LoopTop, s3);
    Then(steps + [LoopTop], s3, Advance(Active), s3.(phase := Active));
    steps := steps + [LoopTop] + [Advance(Active)];
  }

  /**
   `close_session` from CONNECTING raises but leaves the stop flag set: the consumer then ends at its first
   idle moment, and a push accepted afterwards is still queued when a second close reports CLOSED.
   */
  lemma FailedCloseStrandsLaterPush(e: Envelope) returns (steps: seq<Step>, t: State)
    ensures Leads(steps, t)
    ensures t.phase == Phase.Closed && t.history.offered == [e] && t.queue.items == [e] && t.writer.sealed == []
  {
    steps := ReachStranding();
    var s := InitialState(1).(phase := Active, stopRequested := true, consumer := Finished);
    Then(steps, s, Push(e), Apply(s, Push(e)));
    steps, s := steps + [Push(e)], Apply(s, Push(e));
    Then(steps, s, CloseBegin, Apply(s, CloseBegin));
    steps, s := steps + [CloseBegin], Apply(s, CloseBegin);
    Then(steps, s, CloseFinish, Apply(s, CloseFinish));
    steps, t := steps + [CloseFinish], Apply(s, CloseFinish);
  }
}
