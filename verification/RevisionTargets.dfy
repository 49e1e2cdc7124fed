/** Target progress, states and endings of an accepted revision chain, in terms of the values themselves. */
module RevisionTargets {
  import opened Common
  import opened RevisionChain

  // ---------------------------------------------------------------- target progress

  /** The same target or a later one in NONE, TP1, TP2, TP3. */
  predicate SameOrLater(a: Target, b: Target) {
    match a
    case NoTarget => b.NoTarget? || b.Tp1? || b.Tp2? || b.Tp3?
    case Tp1 => b.Tp1? || b.Tp2? || b.Tp3?
    case Tp2 => b.Tp2? || b.Tp3?
    case Tp3 => b.Tp3?
    case OtherTarget => true
  }

  /** A target never goes back, and never becomes an unknown one. */
  lemma TargetNeverRegresses(chain: Chain, i: nat, j: nat)
    requires Accepted(chain) && i <= j < |chain|
    ensures SameOrLater(chain[i].target, chain[j].target)
  {
    ChainIsMonotone(chain, i, j);
  }

  /** Revision `b` follows `a` in everything but its target. */
  predicate FollowsButTarget(a: Revision, b: Revision) {
    && a.revisionTime.Stamp? && b.revisionTime.Stamp? && a.revisionTime.time < b.revisionTime.time
    && a.knowledgeTime.Stamp? && b.knowledgeTime.Stamp? && a.knowledgeTime.time <= b.knowledgeTime.time
    && Allowed(a.state, b.state) && NotWidened(a, b)
  }

  lemma AppendKeeps(chain: Chain, r: Revision, k: nat)
    requires k < |chain|
    ensures Fits(chain + [r], k) <==> Fits(chain, k)
  {
    var longer := chain + [r];
    assert longer[k] == chain[k] && longer[0] == chain[0];
    assert k > 0 ==> longer[k - 1] == chain[k - 1];
    forall m | 0 <= m < k
      ensures longer[m] == chain[m]
    {
    }
  }

  /** Main result: a revision that passes every other check is accepted exactly when its target is the same or later. */
  lemma ProgressExactly(chain: Chain, r: Revision)
    requires Accepted(chain)
    requires Lineage(chain + [r], |chain|) && Timed(chain + [r], |chain|) && FollowsButTarget(chain[|chain| - 1], r)
    ensures Accepted(chain + [r]) <==> SameOrLater(chain[|chain| - 1].target, r.target)
  {
    var longer, n := chain + [r], |chain|;
    assert longer[n] == r && longer[n - 1] == chain[n - 1];
    forall k | 0 <= k < n
      ensures Fits(longer, k)
    {
      AppendKeeps(chain, r, k);
    }
    assert Accepted(longer) <==> Fits(longer, n);
    TerminalHasNoChild(chain[n - 1].state, r.state);
  }

  // ---------------------------------------------------------------- states

  predicate Ended(s: ScenarioState) {
    s == Invalidated || s == Closed || s == Expired
  }

  lemma TerminalHasNoChild(a: ScenarioState, b: ScenarioState)
    ensures Allowed(a, b) ==> !Ended(a) && !a.Terminal()
  {
  }

  /** A state that keeps a position open. */
  predicate Open(s: ScenarioState) {
    s == Active || s == Strengthened || s == Weakened || s == Tp1Reached || s == Tp2Reached
  }

  /** A move the table leaves out although both ends are states of an open or trailing position. */
  predicate LeftOut(a: ScenarioState, b: ScenarioState) {
    || (a == Weakened && b == Strengthened)
    || (a == Tp1Reached && b == Tp1Reached)
    || (a == Tp2Reached && (b == Tp1Reached || b == Tp2Reached))
    || (a == Trailing && (b == Active || b == Strengthened || b == Weakened || b == Tp1Reached))
  }

  /**
   Main result: the transition table by rule.  Nothing returns to NEW; an ended chain stays ended; NEW is activated,
   invalidated or expires; from EXIT_RECOMMENDED only that or an end follows, and from TP3_REACHED only trailing, that
   or an end other than invalidation; otherwise every move is allowed but those left out.
   */
  lemma TransitionsExactly(a: ScenarioState, b: ScenarioState)
    ensures Allowed(a, b)
            <==> && !a.OtherState? && !b.OtherState? && b != New && !Ended(a)
                 && (a == New ==> b == Active || b == Invalidated || b == Expired)
                 && (a == ExitRecommended ==> b == ExitRecommended || Ended(b))
                 && (a == Tp3Reached ==> b == Trailing || b == ExitRecommended || b == Closed || b == Expired)
                 && !LeftOut(a, b)
  {
  }

  /** Every move within an accepted chain obeys that rule, and the chain ends only in a state without a review. */
  lemma ChainObeysTable(chain: Chain, i: nat)
    requires Accepted(chain) && i + 1 < |chain|
    ensures chain[i + 1].state != New && !Ended(chain[i].state) && !LeftOut(chain[i].state, chain[i + 1].state)
    ensures chain[i].state == Tp3Reached ==> !Open(chain[i + 1].state)
    ensures chain[i].state == ExitRecommended ==> chain[i + 1].state == ExitRecommended || Ended(chain[i + 1].state)
  {
    assert Fits(chain, i + 1);
    TransitionsExactly(chain[i].state, chain[i + 1].state);
  }

  /** An ended revision is the last one and schedules no review. */
  lemma EndingsExactly(chain: Chain, i: nat)
    requires Accepted(chain) && i < |chain| && Ended(chain[i].state)
    ensures i == |chain| - 1 && chain[i].context.Some? && chain[i].context.value.nextReview.NoStamp?
  {
    assert Fits(chain, i);
    if i + 1 < |chain| {
      ChainObeysTable(chain, i);
    }
  }

  // ---------------------------------------------------------------- lineage and times

  /** An accepted chain belongs to one signal, numbers its revisions from 1, links each to the one before and repeats
      no id. */
  lemma LineageExactly(chain: Chain, i: nat, j: nat)
    requires Accepted(chain) && i < j < |chain|
    ensures chain[j].signalId == chain[i].signalId && chain[i].signalId.Some?
    ensures chain[j].revisionId.Some? && chain[j].revisionId != chain[i].revisionId
    ensures chain[i].number == i + 1 && chain[j].number == j + 1
    ensures chain[j].parent == chain[j - 1].revisionId && chain[0].parent.None?
  {
    assert Fits(chain, i) && Fits(chain, j) && Fits(chain, 0);
  }

  /** Every revision keeps the creation time of the signal, expires no earlier, and reviews between itself
      and expiry. */
  lemma TimesExactly(chain: Chain, i: nat)
    requires Accepted(chain) && i < |chain|
    ensures chain[i].context.Some? && chain[0].context.Some?
    ensures chain[i].context.value.createdAt == chain[0].context.value.createdAt
    ensures chain[i].context.value.createdAt.Stamp? && chain[i].context.value.expiry.Stamp?
    ensures chain[i].context.value.createdAt.time <= chain[i].context.value.expiry.time
    ensures var review := chain[i].context.value.nextReview;
            && !review.BadStamp?
            && (review.Stamp? ==> && chain[i].revisionTime.Stamp? && chain[i].revisionTime.time < review.time
                                  && review.time <= chain[i].context.value.expiry.time)
  {
    assert Fits(chain, i) && Fits(chain, 0);
  }

  /** A revision's own times are refused for exactly one of these reasons. */
  lemma TimesRefusedExactly(chain: Chain, i: nat)
    requires i < |chain|
    requires chain[i].revisionTime.Stamp? && chain[i].knowledgeTime.Stamp? && chain[i].context.Some?
    requires chain[i].context.value.expiry.Stamp? && chain[0].context.Some?
    requires chain[0].context.value.createdAt.Stamp? && !chain[i].context.value.nextReview.BadStamp?
    ensures var r, c := chain[i], chain[i].context.value;
            !Timed(chain, i)
            <==> || r.knowledgeTime.time > r.revisionTime.time
                 || c.createdAt != chain[0].context.value.createdAt
                 || chain[0].context.value.createdAt.time > c.expiry.time
                 || (c.nextReview.Stamp? && (Ended(r.state) || c.nextReview.time <= r.revisionTime.time
                                             || c.nextReview.time > c.expiry.time))
  {
  }
}
