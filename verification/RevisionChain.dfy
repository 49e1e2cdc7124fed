/** `validate_revision_chain` of lifecycle.py and what an accepted chain guarantees. */
module RevisionChain {
  import opened Common

  datatype ScenarioState =
    | New | Active | Strengthened | Weakened | Tp1Reached | Tp2Reached | Tp3Reached | Trailing | ExitRecommended
    | Invalidated | Closed | Expired
    | OtherState(text: string)
  {
    predicate Terminal() {
      Invalidated? || Closed? || Expired?
    }
  }

  /** The table ALLOWED_TRANSITIONS; a state without an entry has no successor. */
  predicate Allowed(old_: ScenarioState, next: ScenarioState) {
    match old_
    case New => next.Active? || next.Invalidated? || next.Expired?
    case Active =>
      next.Active? || next.Strengthened? || next.Weakened? || next.Tp1Reached? || next.Tp2Reached? || next.Tp3Reached?
      || next.Trailing? || next.Invalidated? || next.ExitRecommended? || next.Closed? || next.Expired?
    case Strengthened =>
      next.Active? || next.Strengthened? || next.Weakened? || next.Tp1Reached? || next.Tp2Reached? || next.Tp3Reached?
      || next.Trailing? || next.Invalidated? || next.ExitRecommended? || next.Closed? || next.Expired?
    case Weakened =>
      next.Active? || next.Weakened? || next.Tp1Reached? || next.Tp2Reached? || next.Tp3Reached? || next.Trailing?
      || next.Invalidated? || next.ExitRecommended? || next.Closed? || next.Expired?
    case Tp1Reached =>
      next.Active? || next.Strengthened? || next.Weakened? || next.Tp2Reached? || next.Tp3Reached? || next.Trailing?
      || next.Invalidated? || next.ExitRecommended? || next.Closed? || next.Expired?
    case Tp2Reached =>
      next.Active? || next.Strengthened? || next.Weakened? || next.Tp3Reached? || next.Trailing? || next.Invalidated?
      || next.ExitRecommended? || next.Closed? || next.Expired?
    case Tp3Reached => next.Trailing? || next.ExitRecommended? || next.Closed? || next.Expired?
    case Trailing =>
      next.Trailing? || next.Tp2Reached? || next.Tp3Reached? || next.ExitRecommended? || next.Closed?
      || next.Invalidated? || next.Expired?
    case ExitRecommended => next.ExitRecommended? || next.Closed? || next.Invalidated? || next.Expired?
    case _ => false
  }

  datatype Target = NoTarget | Tp1 | Tp2 | Tp3 | OtherTarget

  function Rank(t: Target): int {
    match t
    case NoTarget => 0
    case Tp1 => 1
    case Tp2 => 2
    case Tp3 => 3
    case OtherTarget => -1
  }

  /** A timestamp field: absent, not an ISO-8601 UTC timestamp, or its text and the instant it denotes. */
  datatype Stamp = NoStamp | BadStamp | Stamp(text: string, time: int)

  datatype Context = Context(createdAt: Stamp, expiry: Stamp, nextReview: Stamp)

  datatype Decision = Long | Short | OtherDecision

  datatype Price = NoPrice | NotANumber | Price(value: real)

  datatype StopLoss = StopLoss(cancels: bool, price: Price)

  datatype Revision = Revision(
    signalId: Option<string>, revisionId: Option<string>, number: int, parent: Option<string>,
    state: ScenarioState, revisionTime: Stamp, knowledgeTime: Stamp, context: Option<Context>,
    target: Target, decision: Decision, stop: Option<StopLoss>)

  type Chain = seq<Revision>

  datatype Fault = Empty | MissingIds | MixedSignal | WrongNumber | WrongRoot | WrongParent | BadTimestamp
                 | KnowledgeAfterRevision | NoContext | CreatedAtChanged | ExpiresBeforeCreation | ReviewOnTerminal
                 | ReviewOutOfRange | TimeRegressed | ChildOfTerminal | IllegalTransition | TargetRegressed
                 | StopWidened | IncomparableStop

  // ---------------------------------------------------------------- the checks, in the order they are made

  /** Lines 87-108: what one revision must satisfy by itself, given the creation time of the chain. */
  function OwnFault(r: Revision, createdAt: Stamp): Option<Fault> {
    if !r.revisionTime.Stamp? || !r.knowledgeTime.Stamp? then Some(BadTimestamp)
    else if r.knowledgeTime.time > r.revisionTime.time then Some(KnowledgeAfterRevision)
    else if r.context.None? then Some(NoContext)
    else
      var c := r.context.value;
      if c.createdAt != createdAt then Some(CreatedAtChanged)
      else if !c.expiry.Stamp? || !createdAt.Stamp? then Some(BadTimestamp)
      else if c.expiry.time < createdAt.time then Some(ExpiresBeforeCreation)
      else if c.nextReview.NoStamp? then None
      else if r.state.Terminal() then Some(ReviewOnTerminal)
      else if !c.nextReview.Stamp? then Some(BadTimestamp)
      else if !(r.revisionTime.time < c.nextReview.time <= c.expiry.time) then Some(ReviewOutOfRange)
      else None
  }

  /** `_validate_stop_not_widened`. */
  function StopFault(previous: Revision, current: Revision): Option<Fault> {
    if current.decision.OtherDecision? || previous.decision != current.decision then None
    else if previous.stop.None? || current.stop.None? || current.stop.value.cancels then None
    else
      var before, after := previous.stop.value.price, current.stop.value.price;
      if before.NoPrice? || after.NoPrice? then None
      else if before.NotANumber? || after.NotANumber? then Some(IncomparableStop)
      else if current.decision.Long? && after.value < before.value then Some(StopWidened)
      else if current.decision.Short? && after.value > before.value then Some(StopWidened)
      else None
  }

  /** Lines 110-124: how a revision must follow the one before it. */
  function LinkFault(previous: Revision, r: Revision): Option<Fault>
    requires previous.revisionTime.Stamp? && previous.knowledgeTime.Stamp?
    requires r.revisionTime.Stamp? && r.knowledgeTime.Stamp?
  {
    if r.revisionTime.time <= previous.revisionTime.time || r.knowledgeTime.time < previous.knowledgeTime.time then
      Some(TimeRegressed)
    else if previous.state.Terminal() then Some(ChildOfTerminal)
    else if !Allowed(previous.state, r.state) then Some(IllegalTransition)
    else if Rank(r.target) < Rank(previous.target) then Some(TargetRegressed)
    else StopFault(previous, r)
  }

  /** Lines 70-85: identity and lineage. */
  function LineageFault(r: Revision, index: nat, signalId: Option<string>, seen: set<string>,
                        previous: Option<Revision>): Option<Fault> {
    if r.signalId.None? || r.revisionId.None? then Some(MissingIds)
    else if (signalId.Some? && r.signalId != signalId) || r.revisionId.value in seen then Some(MixedSignal)
    else if r.number != index + 1 then Some(WrongNumber)
    else if index == 0 then (if r.parent.Some? || !r.state.New? then Some(WrongRoot) else None)
    else if previous.Some? && r.parent != previous.value.revisionId then Some(WrongParent)
    else None
  }

  function CreatedAt(r: Revision): Stamp {
    if r.context.Some? then r.context.value.createdAt else NoStamp
  }

  /** The loop.  `signal_id` and `created_at` keep the first revision's values. */
  method ValidateRevisionChain(chain: Chain) returns (fault: Option<Fault>)
    ensures fault.None? <==> Accepted(chain)
  {
    if chain == [] {
      return Some(Empty);
    }
    var signalId: Option<string>, createdAt: Stamp, seenIds: set<string> := None, NoStamp, {};
    var previous: Option<Revision> := None;
    for i := 0 to |chain|
      invariant forall k :: 0 <= k < i ==> Fits(chain, k)
      invariant seenIds == SeenIds(chain, i)
      invariant i == 0 ==> signalId.None? && createdAt.NoStamp? && previous.None?
      invariant i > 0 ==> signalId == chain[0].signalId && createdAt == CreatedAt(chain[0])
      invariant i > 0 ==> previous == Some(chain[i - 1])
    {
      var r := chain[i];
      fault := LineageFault(r, i, signalId, seenIds, previous);
      if fault.Some? {
        assert !Fits(chain, i);
        return;
      }
      signalId := if signalId.None? then r.signalId else signalId;
      seenIds := seenIds + {r.revisionId.value};
      createdAt := if createdAt.NoStamp? then CreatedAt(r) else createdAt;
      fault := OwnFault(r, createdAt);
      if fault.Some? {
        assert !Fits(chain, i);
        return;
      }
      if previous.Some? {
        assert Fits(chain, i - 1);
        fault := LinkFault(previous.value, r);
        if fault.Some? {
          assert !Fits(chain, i);
          return;
        }
      }
      previous := Some(r);
    }
    fault := None;
  }

  // ---------------------------------------------------------------- the declarative definition

  function SeenIds(chain: Chain, n: nat): set<string>
    requires n <= |chain|
  {
    set k | 0 <= k < n && chain[k].revisionId.Some? :: chain[k].revisionId.value
  }

  /** One signal, its own id, numbered by position, child of the revision before. */
  predicate Lineage(chain: Chain, i: nat)
    requires i < |chain|
  {
    var r := chain[i];
    && r.signalId.Some? && r.signalId == chain[0].signalId
    && r.revisionId.Some? && (forall k :: 0 <= k < i ==> chain[k].revisionId != r.revisionId)
    && r.number == i + 1
    && (if i == 0 then r.parent.None? && r.state.New? else r.parent == chain[i - 1].revisionId)
  }

  predicate Timed(chain: Chain, i: nat)
    requires i < |chain|
  {
    var r := chain[i];
    && r.revisionTime.Stamp? && r.knowledgeTime.Stamp? && r.knowledgeTime.time <= r.revisionTime.time
    && r.context.Some? && r.context.value.createdAt.Stamp? && r.context.value.createdAt == CreatedAt(chain[0])
    && r.context.value.expiry.Stamp? && r.context.value.createdAt.time <= r.context.value.expiry.time
    && match r.context.value.nextReview
       case NoStamp => true
       case BadStamp => false
       case Stamp(_, review) => !r.state.Terminal() && r.revisionTime.time < review <= r.context.value.expiry.time
  }

  predicate Priced(r: Revision) {
    r.stop.Some? && !r.stop.value.price.NoPrice?
  }

  /** Both revisions hold the same position with a price, and the later one does not cancel its stop. */
  predicate StopsCompared(a: Revision, b: Revision) {
    !b.decision.OtherDecision? && a.decision == b.decision && Priced(a) && Priced(b) && !b.stop.value.cancels
  }

  predicate NotWidened(a: Revision, b: Revision) {
    StopsCompared(a, b) ==>
      && a.stop.value.price.Price? && b.stop.value.price.Price?
      && (b.decision.Long? ==> b.stop.value.price.value >= a.stop.value.price.value)
      && (b.decision.Short? ==> b.stop.value.price.value <= a.stop.value.price.value)
  }

  predicate Follows(a: Revision, b: Revision) {
    && (a.revisionTime.Stamp? && b.revisionTime.Stamp? && a.revisionTime.time < b.revisionTime.time)
    && (a.knowledgeTime.Stamp? && b.knowledgeTime.Stamp? && a.knowledgeTime.time <= b.knowledgeTime.time)
    && !a.state.Terminal() && Allowed(a.state, b.state) && Rank(a.target) <= Rank(b.target) && NotWidened(a, b)
  }

  /** Revision `i` is in order, given the ones before it. */
  predicate Fits(chain: Chain, i: nat)
    requires i < |chain|
  {
    Lineage(chain, i) && Timed(chain, i) && (i > 0 ==> Follows(chain[i - 1], chain[i]))
  }

  predicate Accepted(chain: Chain) {
    chain != [] && forall i :: 0 <= i < |chain| ==> Fits(chain, i)
  }

  // ---------------------------------------------------------------- over a whole chain

  /** Every non-empty prefix of an accepted chain was accepted. */
  lemma PrefixAccepted(chain: Chain, n: nat)
    requires Accepted(chain) && 0 < n <= |chain|
    ensures Accepted(chain[..n])
  {
    forall i | 0 <= i < n
      ensures Fits(chain[..n], i)
    {
      assert Fits(chain, i);
      assert forall k :: 0 <= k <= i ==> chain[..n][k] == chain[k];
    }
  }

  /** NEW opens a chain and nothing else does; a terminal state can only close it. */
  lemma NewFirstTerminalLast(chain: Chain, i: nat)
    requires Accepted(chain) && i < |chain|
    ensures chain[i].state.New? <==> i == 0
    ensures chain[i].state.Terminal() ==> i == |chain| - 1
    ensures !chain[i].state.OtherState?
  {
    assert Fits(chain, i);
    assert i + 1 < |chain| ==> Fits(chain, i + 1);
  }

  /** Once an exit is recommended, the chain only repeats it or ends. */
  lemma {:induction false} ExitIsFinal(chain: Chain, i: nat, j: nat)
    requires Accepted(chain) && i <= j < |chain| && chain[i].state.ExitRecommended?
    ensures chain[j].state.ExitRecommended? || (chain[j].state.Terminal() && j == |chain| - 1)
  {
    assert Fits(chain, j);
    if i < j {
      ExitIsFinal(chain, i, j - 1);
    }
    NewFirstTerminalLast(chain, j);
  }

  /** Revision times increase, knowledge and target progress never regress. */
  lemma {:induction false} ChainIsMonotone(chain: Chain, i: nat, j: nat)
    requires Accepted(chain) && i <= j < |chain|
    ensures chain[i].revisionTime.Stamp? && chain[j].revisionTime.Stamp?
    ensures chain[i].knowledgeTime.Stamp? && chain[j].knowledgeTime.Stamp?
    ensures chain[i].revisionTime.time + (j - i) <= chain[j].revisionTime.time
    ensures chain[i].knowledgeTime.time <= chain[j].knowledgeTime.time
    ensures Rank(chain[i].target) <= Rank(chain[j].target)
  {
    assert Fits(chain, j);
    if i < j {
      ChainIsMonotone(chain, i, j - 1);
    }
  }

  /** No revision knows anything from after its own time or that of any later revision. */
  lemma KnowledgePrecedesRevision(chain: Chain, i: nat, j: nat)
    requires Accepted(chain) && i <= j < |chain|
    ensures chain[i].knowledgeTime.Stamp? && chain[j].revisionTime.Stamp?
    ensures chain[i].knowledgeTime.time <= chain[j].revisionTime.time
  {
    ChainIsMonotone(chain, i, j);
    assert Fits(chain, j);
  }

  /** Positions `i` to `j` hold one position, each with a price, none after the first cancelling its stop. */
  predicate Uninterrupted(chain: Chain, i: nat, j: nat)
    requires i <= j < |chain|
  {
    && !chain[i].decision.OtherDecision?
    && (forall k :: i <= k <= j ==> chain[k].decision == chain[i].decision && Priced(chain[k]))
    && (forall k :: i < k <= j ==> !chain[k].stop.value.cancels)
  }

  /** Over an uninterrupted LONG the stop never falls, over an uninterrupted SHORT it never rises. */
  lemma {:induction false} StopNeverWidens(chain: Chain, i: nat, j: nat)
    requires Accepted(chain) && i < j < |chain| && Uninterrupted(chain, i, j)
    ensures chain[i].stop.value.price.Price? && chain[j].stop.value.price.Price?
    ensures chain[i].decision.Long? ==> chain[i].stop.value.price.value <= chain[j].stop.value.price.value
    ensures chain[i].decision.Short? ==> chain[i].stop.value.price.value >= chain[j].stop.value.price.value
  {
    assert Fits(chain, j);
    assert NotWidened(chain[j - 1], chain[j]);
    if i + 1 < j {
      StopNeverWidens(chain, i, j - 1);
    }
  }

  /** A revision of one signal, at position `i`, holding `decision` with a stop at `price`. */
  function Sample(i: nat, state: ScenarioState, decision: Decision, price: real): Revision {
    Revision(Some("signal"), Some(Name(i)), i + 1, if i == 0 then None else Some(Name(i - 1)), state,
             Stamp("", i), Stamp("", 0), Some(Context(Stamp("", 0), Stamp("", 9), NoStamp)),
             NoTarget, decision, Some(StopLoss(false, Price(price))))
  }

  function Name(i: nat): (s: string)
    ensures |s| == i
  {
    seq(i, _ => 'r')
  }

  /** Interrupted once, a stop can be widened: the middle revision is neither LONG nor SHORT. */
  lemma DetourWidensStop() returns (chain: Chain)
    ensures Accepted(chain) && |chain| == 3
    ensures chain[0].decision.Long? && chain[2].decision.Long? && !Uninterrupted(chain, 0, 2)
    ensures Priced(chain[0]) && Priced(chain[2]) && !chain[2].stop.value.cancels
    ensures chain[0].stop.value.price == Price(100.0) && chain[2].stop.value.price == Price(90.0)
  {
    chain := [Sample(0, New, Long, 100.0), Sample(1, Active, OtherDecision, 0.0), Sample(2, Active, Long, 90.0)];
  }

}
