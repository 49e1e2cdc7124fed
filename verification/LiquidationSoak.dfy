/**
 The retry supervisor `_run_stream` of liquidation_soak.py as a fold over the attempts it makes.  What an
 attempt does, and every clock reading, comes from outside; times are integers.
 */
module LiquidationSoak {
  import opened Common
  import opened Strings

  // ---------------------------------------------------------------- failures

  datatype ErrorKind = KeyErrorOrJson | OtherValueError | OsError | OtherError

  datatype Reason = WrongSymbol | UnknownSchema | InvalidSourceMessage | NetworkFailure | ProcessError

  function Upper(s: string): string {
    if s == [] then [] else [if 'a' <= s[0] <= 'z' then s[0] - 'a' + 'A' else s[0]] + Upper(s[1..])
  }

  /** The reason code of `_classify_failure`. */
  function Classify(kind: ErrorKind, message: string): Reason {
    var m := Upper(message);
    if HasSubstring(m, "SYMBOL") || HasSubstring(m, "TOPIC") then WrongSymbol
    else if kind == KeyErrorOrJson then UnknownSchema
    else if kind == OtherValueError then InvalidSourceMessage
    else if kind == OsError || HasSubstring(m, "CONNECT") || HasSubstring(m, "WEBSOCKET") then NetworkFailure
    else ProcessError
  }

  function ParserRejects(r: Reason): nat {
    if r == WrongSymbol || r == UnknownSchema || r == InvalidSourceMessage then 1 else 0
  }

  // ---------------------------------------------------------------- attempts

  /** Counts of one attempt and the hashes of the wire messages it saw. */
  datatype Traffic = Traffic(messages: int, events: int, persisted: int, hashes: seq<string>)

  datatype Outcome =
    | Completed(transportPass: bool, subscriptionPass: bool, traffic: Traffic, dropped: int,
                dropStart: int, endedAt: int, termination: string)
    | Raised(kind: ErrorKind, message: string, buffered: Option<Traffic>, failedAt: int)

  /** `remaining` is what the deadline leaves before the attempt. */
  datatype Attempt = Attempt(remaining: int, session: string, attemptedAt: int, outcome: Outcome) {
    predicate Succeeds() {
      outcome.Completed?
    }

    function Why(): Reason
      requires outcome.Raised?
    {
      Classify(outcome.kind, outcome.message)
    }

    /** A failure that opens an interval without capture. */
    predicate OpensInterval() {
      outcome.Raised? && Why() != WrongSymbol
    }

    predicate WrongSymbolFailure() {
      outcome.Raised? && Why() == WrongSymbol
    }

    function Seen(): Traffic {
      match outcome
      case Completed(_, _, traffic, _, _, _, _) => traffic
      case Raised(_, _, buffered, _) => if buffered.Some? then buffered.value else Traffic(0, 0, 0, [])
    }
  }

  /** The attempts made from attempt number `i` on: up to the first success, the deadline or the limit. */
  function Made(script: nat -> Attempt, i: nat, limit: nat): seq<Attempt>
    decreases limit - i
  {
    if i >= limit || script(i).remaining <= 0 then []
    else if script(i).Succeeds() then [script(i)]
    else [script(i)] + Made(script, i + 1, limit)
  }

  /** Only the last attempt can be a success. */
  predicate Supervised(made: seq<Attempt>) {
    forall i :: 0 <= i < |made| - 1 ==> !made[i].Succeeds()
  }

  lemma {:induction false} MadeIsSupervised(script: nat -> Attempt, i: nat, limit: nat)
    ensures Supervised(Made(script, i, limit))
    ensures |Made(script, i, limit)| <= if i <= limit then limit - i else 0
    decreases limit - i
  {
    if i < limit && script(i).remaining > 0 && !script(i).Succeeds() {
      MadeIsSupervised(script, i + 1, limit);
    }
  }

  // ---------------------------------------------------------------- the fold

  datatype Totals = Totals(attempts: nat, connects: nat, acks: nat, disconnects: nat, reconnects: nat,
                           messages: int, events: int, persisted: int,
                           parserRejects: nat, wrongSymbolRejects: nat, duplicates: nat, dropped: int)

  /** What `_unrecoverable_gap` is called with; `dropped` is added to the evidence of a confirmed drop. */
  datatype GapCall = GapCall(start: int, end: int, before: string, after: Option<string>, reason: GapReason,
                             dropped: Option<int>)

  datatype GapReason = Disconnected(reason: Reason) | ConfirmedLocalDrop

  datatype Pending = Pending(failedAt: int, session: string)

  datatype RunState = RunState(totals: Totals, gaps: seq<GapCall>, errors: seq<Reason>, seen: set<string>,
                               gapped: bool, pending: Option<Pending>)

  const Start := RunState(Totals(0, 0, 0, 0, 0, 0, 0, 0, 0, 0, 0, 0), [], [], {}, false, None)

  function Max(a: int, b: int): int {
    if b > a then b else a
  }

  /** How many of the hashes were seen before, in this attempt or an earlier one. */
  function Repeats(seen: set<string>, hashes: seq<string>): nat
    decreases |hashes|
  {
    if hashes == [] then 0
    else (if hashes[0] in seen then 1 else 0) + Repeats(seen + {hashes[0]}, hashes[1..])
  }

  function AsSet(hashes: seq<string>): set<string> {
    set h | h in hashes
  }

  /** The counters both outcomes update. */
  function Counted(t: Totals, seen: set<string>, a: Attempt, reconnect: bool): Totals {
    t.(attempts := t.attempts + 1, reconnects := t.reconnects + (if reconnect then 1 else 0),
       messages := t.messages + a.Seen().messages, events := t.events + a.Seen().events,
       persisted := t.persisted + a.Seen().persisted, duplicates := t.duplicates + Repeats(seen, a.Seen().hashes))
  }

  function Closing(p: Pending, attemptedAt: int, after: Option<string>, reason: Reason): GapCall {
    GapCall(p.failedAt, Max(attemptedAt, p.failedAt), p.session, after, Disconnected(reason), None)
  }

  /** The gap, if any, that attempt `a` closes; `errors` are those before it. */
  function Closed(s: RunState, a: Attempt): seq<GapCall>
    requires s.pending.Some? ==> s.errors != []
  {
    if s.pending.None? || a.WrongSymbolFailure() then []
    else [Closing(s.pending.value, a.attemptedAt, Some(a.session), s.errors[|s.errors| - 1])]
  }

  function Drop(a: Attempt): seq<GapCall> {
    if a.Succeeds() && a.outcome.dropped > 0 then
      [GapCall(a.outcome.dropStart, Max(a.outcome.endedAt, a.outcome.dropStart), a.session, None, ConfirmedLocalDrop,
               Some(a.outcome.dropped))]
    else []
  }

  function AfterSuccess(s: RunState, a: Attempt): RunState
    requires a.Succeeds() && (s.pending.Some? ==> s.errors != [])
  {
    var t := Counted(s.totals, s.seen, a, s.totals.attempts > 0);
    RunState(
      t.(connects := t.connects + (if a.outcome.transportPass then 1 else 0),
         acks := t.acks + (if a.outcome.subscriptionPass then 1 else 0), dropped := t.dropped + a.outcome.dropped),
      s.gaps + Closed(s, a) + Drop(a), s.errors, s.seen + AsSet(a.outcome.traffic.hashes),
      s.gapped || s.pending.Some? || a.outcome.dropped > 0, None)
  }

  function AfterFailure(s: RunState, a: Attempt): RunState
    requires a.outcome.Raised? && (s.pending.Some? ==> s.errors != [])
  {
    var t := Counted(s.totals, s.seen, a, s.totals.attempts > 0);
    RunState(
      t.(disconnects := t.disconnects + 1, parserRejects := t.parserRejects + ParserRejects(a.Why()),
         wrongSymbolRejects := t.wrongSymbolRejects + (if a.Why() == WrongSymbol then 1 else 0)),
      s.gaps + Closed(s, a), s.errors + [a.Why()], s.seen + AsSet(a.Seen().hashes),
      s.gapped || a.OpensInterval(),
      if a.OpensInterval() then Some(Pending(a.outcome.failedAt, a.session)) else s.pending)
  }

  /** A pending interval has a recorded error behind it, so `errors[-1]` and `errors[-2]` are always defined. */
  predicate Sound(s: RunState) {
    && (s.pending.Some? ==> s.errors != [] && s.gapped)
    && (s.gaps != [] ==> s.gapped)
    && (s.gapped ==> s.gaps != [] || s.pending.Some?)
  }

  function After(made: seq<Attempt>): (s: RunState)
    ensures Sound(s)
  {
    if made == [] then Start
    else
      var s, a := After(made[..|made| - 1]), made[|made| - 1];
      if a.Succeeds() then AfterSuccess(s, a) else AfterFailure(s, a)
  }

  lemma AfterAppend(made: seq<Attempt>, a: Attempt)
    ensures After(made + [a]) == if a.Succeeds() then AfterSuccess(After(made), a) else AfterFailure(After(made), a)
  {
    assert (made + [a])[..|made|] == made;
  }

  /** After the loop: an interval still open is closed at the end time. */
  function Final(s: RunState, endTime: int): RunState
    requires Sound(s)
  {
    s.(gaps := s.gaps + (if s.pending.None? then []
                         else [Closing(s.pending.value, endTime, None, s.errors[|s.errors| - 1])]),
       gapped := s.gapped || s.totals.dropped > 0)
  }

  /** What the run reports. */
  function Report(made: seq<Attempt>, endTime: int): RunState {
    Final(After(made), endTime)
  }

  // ---------------------------------------------------------------- the gaps of a run

  /** The attempts that are not WRONG_SYMBOL failures: only they open or close an interval. */
  function Relevant(made: seq<Attempt>): seq<Attempt> {
    if made == [] then []
    else
      Relevant(made[..|made| - 1])
      + if made[|made| - 1].WrongSymbolFailure() then [] else [made[|made| - 1]]
  }

  /** The interval opened by the k-th relevant attempt: until the next relevant attempt begins, or the end. */
  predicate IsIntervalOf(g: GapCall, rel: seq<Attempt>, k: nat, endTime: int)
    requires k < |rel|
  {
    && rel[k].outcome.Raised?
    && g.start == rel[k].outcome.failedAt && g.before == rel[k].session && g.dropped.None?
    && (if k + 1 < |rel| then g.end == Max(rel[k + 1].attemptedAt, g.start) && g.after == Some(rel[k + 1].session)
        else g.end == Max(endTime, g.start) && g.after.None?)
  }

  predicate GapsAre(gaps: seq<GapCall>, rel: seq<Attempt>, n: nat)
    requires n < |rel| || n == 0
  {
    |gaps| == n && forall k :: 0 <= k < n ==> k + 1 < |rel| && IsIntervalOf(gaps[k], rel, k, 0)
  }

  predicate Failing(made: seq<Attempt>) {
    forall i :: 0 <= i < |made| ==> made[i].outcome.Raised?
  }

  /** While the run goes on, every interval but the last is recorded and the last one is pending. */
  predicate Tracked(s: RunState, rel: seq<Attempt>) {
    && Failing(rel)
    && (rel == [] ==> s.pending.None?)
    && (rel != [] ==> s.pending == Some(Pending(rel[|rel| - 1].outcome.failedAt, rel[|rel| - 1].session)))
    && GapsAre(s.gaps, rel, if rel == [] then 0 else |rel| - 1)
  }

  lemma TrackedStep(s: RunState, rel: seq<Attempt>, a: Attempt)
    requires Sound(s) && Tracked(s, rel) && a.OpensInterval()
    ensures Tracked(AfterFailure(s, a), rel + [a])
  {
    var longer := rel + [a];
    if rel != [] {
      forall k | 0 <= k < |rel| - 1
        ensures IsIntervalOf(s.gaps[k], longer, k, 0)
      {
        assert IsIntervalOf(s.gaps[k], rel, k, 0);
      }
    }
  }

  lemma {:induction false} FailuresTracked(made: seq<Attempt>)
    requires Failing(made)
    ensures Tracked(After(made), Relevant(made))
  {
    if made != [] {
      var prefix, a := made[..|made| - 1], made[|made| - 1];
      FailuresTracked(prefix);
      if a.OpensInterval() {
        TrackedStep(After(prefix), Relevant(prefix), a);
      } else {
        assert After(prefix).gaps + [] == After(prefix).gaps;
        assert Relevant(prefix) + [] == Relevant(prefix);
      }
    }
  }

  /** How many intervals a run opens: its failures other than WRONG_SYMBOL. */
  function Intervals(made: seq<Attempt>): nat {
    if made == [] then 0 else Intervals(made[..|made| - 1]) + if made[|made| - 1].OpensInterval() then 1 else 0
  }

  lemma {:induction false} RelevantCount(made: seq<Attempt>)
    requires Failing(made)
    ensures |Relevant(made)| == Intervals(made) && Failing(Relevant(made))
  {
    if made != [] {
      RelevantCount(made[..|made| - 1]);
    }
  }

  /** The gaps of a finished run: one per interval, in order, then one for a success that dropped messages. */
  ghost predicate GapLedger(gaps: seq<GapCall>, made: seq<Attempt>, endTime: int) {
    var n := Intervals(made);
    && |gaps| == n + (if made != [] then |Drop(made[|made| - 1])| else 0)
    && n <= |Relevant(made)|
    && (forall k :: 0 <= k < n ==> IsIntervalOf(gaps[k], Relevant(made), k, endTime))
    && (|gaps| > n ==> gaps[n..] == Drop(made[|made| - 1]))
  }

  lemma SuccessLedger(prefix: seq<Attempt>, a: Attempt, endTime: int)
    requires Failing(prefix) && a.Succeeds()
    ensures GapLedger(Report(prefix + [a], endTime).gaps, prefix + [a], endTime)
  {
    var made, s, rel := prefix + [a], After(prefix), Relevant(prefix);
    assert made[..|prefix|] == prefix;
    FailuresTracked(prefix);
    RelevantCount(prefix);
    var gaps := s.gaps + Closed(s, a);
    assert |gaps| == |rel|;
    forall k | 0 <= k < |rel|
      ensures IsIntervalOf(gaps[k], rel + [a], k, endTime)
    {
      assert k < |rel| - 1 ==> IsIntervalOf(s.gaps[k], rel, k, 0);
    }
    assert Report(made, endTime).gaps == gaps + Drop(a);
  }

  lemma FailureLedger(made: seq<Attempt>, endTime: int)
    requires Failing(made)
    ensures GapLedger(Report(made, endTime).gaps, made, endTime)
  {
    var s, rel := After(made), Relevant(made);
    FailuresTracked(made);
    RelevantCount(made);
    var gaps := Report(made, endTime).gaps;
    assert |gaps| == |rel|;
    forall k | 0 <= k < |rel|
      ensures IsIntervalOf(gaps[k], rel, k, endTime)
    {
      assert k < |rel| - 1 ==> IsIntervalOf(s.gaps[k], rel, k, 0);
    }
  }

  /** Main result: exactly one gap per failure other than WRONG_SYMBOL, from that failure to the next attempt
      that can end it, plus one for a success with drops. */
  lemma GapsAccountExactly(made: seq<Attempt>, endTime: int)
    requires Supervised(made)
    ensures GapLedger(Report(made, endTime).gaps, made, endTime)
  {
    if made != [] && made[|made| - 1].Succeeds() {
      var prefix := made[..|made| - 1];
      assert made == prefix + [made[|made| - 1]];
      SuccessLedger(prefix, made[|made| - 1], endTime);
    } else {
      FailureLedger(made, endTime);
    }
  }

  // ---------------------------------------------------------------- time

  /** Clock readings in the order they are taken never go back. */
  predicate Clocked(made: seq<Attempt>, endTime: int) {
    && (forall i :: 0 <= i < |made| && made[i].outcome.Raised? ==>
        made[i].attemptedAt <= made[i].outcome.failedAt <= endTime)
    && (forall i, j :: 0 <= i < j < |made| && made[i].outcome.Raised? ==>
        made[i].outcome.failedAt <= made[j].attemptedAt)
  }

  lemma {:induction false} RelevantClocked(made: seq<Attempt>, endTime: int)
    requires Clocked(made, endTime)
    ensures Clocked(Relevant(made), endTime)
    ensures forall a :: a in Relevant(made) ==> a in made
  {
    if made != [] {
      var prefix, last := made[..|made| - 1], made[|made| - 1];
      RelevantClocked(prefix, endTime);
      forall i | 0 <= i < |Relevant(prefix)| && Relevant(prefix)[i].outcome.Raised?
        ensures Relevant(prefix)[i].outcome.failedAt <= last.attemptedAt
      {
        assert Relevant(prefix)[i] in prefix;
      }
      assert made == prefix + [last];
    }
  }

  /** Under such a clock an interval ends where the next relevant attempt begins. */
  lemma IntervalEnds(g: GapCall, rel: seq<Attempt>, k: nat, endTime: int)
    requires k < |rel| && Clocked(rel, endTime) && IsIntervalOf(g, rel, k, endTime)
    ensures g.start == rel[k].outcome.failedAt <= g.end
    ensures k + 1 < |rel| ==> g.end == rel[k + 1].attemptedAt
  {
  }

  /** Under such a clock the disconnect gaps run exactly to the next relevant attempt, in order, without overlap. */
  lemma GapsDoNotOverlap(made: seq<Attempt>, endTime: int, j: nat, k: nat)
    requires Supervised(made) && Clocked(made, endTime) && j < k < Intervals(made)
    ensures var gaps := Report(made, endTime).gaps;
            && k < |gaps| && k < |Relevant(made)|
            && gaps[j].start <= gaps[j].end <= gaps[k].start <= gaps[k].end
            && gaps[j].end == Relevant(made)[j + 1].attemptedAt
  {
    GapsAccountExactly(made, endTime);
    RelevantClocked(made, endTime);
    var gaps, rel := Report(made, endTime).gaps, Relevant(made);
    assert IsIntervalOf(gaps[j + 1], rel, j + 1, endTime);
    IntervalEnds(gaps[j], rel, j, endTime);
    IntervalEnds(gaps[k], rel, k, endTime);
  }

  // ---------------------------------------------------------------- status, counters

  lemma {:induction false} DroppedOnlyAtSuccess(made: seq<Attempt>)
    requires Supervised(made)
    ensures After(made).totals.dropped
            == if made != [] && made[|made| - 1].Succeeds() then made[|made| - 1].outcome.dropped else 0
  {
    if made != [] {
      DroppedOnlyAtSuccess(made[..|made| - 1]);
    }
  }

  /** The local status is GAPPED exactly when the run recorded a gap. */
  lemma GappedExactly(made: seq<Attempt>, endTime: int)
    requires Supervised(made)
    ensures Report(made, endTime).gapped <==> Report(made, endTime).gaps != []
  {
    DroppedOnlyAtSuccess(made);
    if made != [] && made[|made| - 1].Succeeds() && made[|made| - 1].outcome.dropped > 0 {
      GapsAccountExactly(made, endTime);
    }
  }

  function AllHashes(made: seq<Attempt>): seq<string> {
    if made == [] then [] else AllHashes(made[..|made| - 1]) + made[|made| - 1].Seen().hashes
  }

  lemma {:induction false} RepeatsExactly(seen: set<string>, hashes: seq<string>)
    ensures Repeats(seen, hashes) == |hashes| + |seen| - |seen + AsSet(hashes)|
    decreases |hashes|
  {
    if hashes == [] {
      assert seen + AsSet(hashes) == seen;
    } else {
      RepeatsExactly(seen + {hashes[0]}, hashes[1..]);
      assert hashes == [hashes[0]] + hashes[1..];
      assert seen + {hashes[0]} + AsSet(hashes[1..]) == seen + AsSet(hashes);
      assert hashes[0] in seen ==> seen + {hashes[0]} == seen;
    }
  }

  /** Duplicates are the hashes received beyond the distinct ones, over the whole run. */
  lemma {:induction false} DuplicatesExactly(made: seq<Attempt>)
    ensures After(made).seen == AsSet(AllHashes(made))
    ensures After(made).totals.duplicates == |AllHashes(made)| - |AsSet(AllHashes(made))|
  {
    if made != [] {
      var prefix, a := made[..|made| - 1], made[|made| - 1];
      DuplicatesExactly(prefix);
      RepeatsExactly(After(prefix).seen, a.Seen().hashes);
      assert AsSet(AllHashes(made)) == AsSet(AllHashes(prefix)) + AsSet(a.Seen().hashes);
    }
  }

  /** Every failure is a disconnect and an error; only WRONG_SYMBOL failures open no interval. */
  lemma {:induction false} FailuresCounted(made: seq<Attempt>)
    requires Supervised(made)
    ensures var t := After(made).totals;
            && t.attempts == |made| && t.reconnects == (if made == [] then 0 else |made| - 1)
            && t.disconnects == |After(made).errors| == Intervals(made) + t.wrongSymbolRejects
            && t.disconnects == |made| - (if made != [] && made[|made| - 1].Succeeds() then 1 else 0)
  {
    if made != [] {
      FailuresCounted(made[..|made| - 1]);
    }
  }

  // ---------------------------------------------------------------- recorded reasons

  /** The k-th gap names the reason of the failure that opened it. */
  predicate ReasonRight(gaps: seq<GapCall>, rel: seq<Attempt>, k: nat)
    requires k < |rel| && k < |gaps| && rel[k].outcome.Raised?
  {
    gaps[k].reason == Disconnected(rel[k].Why())
  }

  /** Every interval recorded so far names its own failure. */
  predicate ReasonsRight(gaps: seq<GapCall>, rel: seq<Attempt>, n: nat) {
    forall k :: 0 <= k < n ==> k < |gaps| && k < |rel| && rel[k].outcome.Raised? && ReasonRight(gaps, rel, k)
  }

  /** No WRONG_SYMBOL failure directly follows a failure that opened an interval. */
  predicate NeverMasked(made: seq<Attempt>) {
    forall i :: 0 < i < |made| ==> !(made[i - 1].OpensInterval() && made[i].WrongSymbolFailure())
  }

  predicate PendingRight(s: RunState, rel: seq<Attempt>) {
    rel != [] ==> rel[|rel| - 1].outcome.Raised? && s.errors != [] && s.errors[|s.errors| - 1] == rel[|rel| - 1].Why()
  }

  function Recorded(rel: seq<Attempt>): nat {
    if rel == [] then 0 else |rel| - 1
  }

  lemma ReasonsAppend(gaps: seq<GapCall>, g: GapCall, rel: seq<Attempt>, b: Attempt)
    requires |gaps| + 1 == |rel| && Failing(rel)
    ensures ReasonsRight(gaps + [g], rel + [b], |rel|)
            <==> ReasonsRight(gaps, rel, |rel| - 1) && g.reason == Disconnected(rel[|rel| - 1].Why())
    ensures ReasonsRight(gaps + [g], rel, |rel|) <==> ReasonsRight(gaps + [g], rel + [b], |rel|)
  {
    forall k | 0 <= k < |rel|
      ensures (rel + [b])[k] == rel[k] && (gaps + [g])[k] == if k < |gaps| then gaps[k] else g
    {
    }
    if ReasonsRight(gaps + [g], rel + [b], |rel|) {
      forall k | 0 <= k < |gaps|
        ensures ReasonRight(gaps, rel, k)
      {
        assert ReasonRight(gaps + [g], rel + [b], k);
      }
      assert ReasonRight(gaps + [g], rel + [b], |gaps|);
    }
    if ReasonsRight(gaps + [g], rel, |rel|) {
      forall k | 0 <= k < |rel|
        ensures ReasonRight(gaps + [g], rel + [b], k)
      {
        assert ReasonRight(gaps + [g], rel, k);
      }
    }
  }

  lemma NeverMaskedAppend(made: seq<Attempt>, a: Attempt)
    ensures NeverMasked(made + [a])
            <==> NeverMasked(made) && !(made != [] && made[|made| - 1].OpensInterval() && a.WrongSymbolFailure())
  {
    forall i | 0 <= i < |made|
      ensures (made + [a])[i] == made[i]
    {
    }
    if NeverMasked(made + [a]) {
      forall i | 0 < i < |made|
        ensures !(made[i - 1].OpensInterval() && made[i].WrongSymbolFailure())
      {
        assert (made + [a])[i] == made[i] && (made + [a])[i - 1] == made[i - 1];
      }
      assert made != [] ==> !((made + [a])[|made| - 1].OpensInterval() && (made + [a])[|made|].WrongSymbolFailure());
    }
  }

  lemma {:induction false} LastErrorIsLastFailure(made: seq<Attempt>)
    requires Failing(made)
    ensures |After(made).errors| == |made|
    ensures made != [] ==> After(made).errors[|made| - 1] == made[|made| - 1].Why()
  {
    if made != [] {
      LastErrorIsLastFailure(made[..|made| - 1]);
    }
  }

  lemma {:induction false} RelevantOpenIntervals(made: seq<Attempt>)
    requires Failing(made)
    ensures forall k :: 0 <= k < |Relevant(made)| ==> Relevant(made)[k].OpensInterval()
  {
    if made != [] {
      RelevantOpenIntervals(made[..|made| - 1]);
    }
  }

  lemma RelevantAppend(made: seq<Attempt>, a: Attempt)
    ensures Relevant(made + [a]) == Relevant(made) + if a.WrongSymbolFailure() then [] else [a]
  {
    assert (made + [a])[..|made|] == made;
  }

  predicate RightSoFar(made: seq<Attempt>) {
    ReasonsRight(After(made).gaps, Relevant(made), Recorded(Relevant(made)))
        && PendingRight(After(made), Relevant(made))
  }

  /** A WRONG_SYMBOL failure spoils the label of a pending interval. */
  lemma MaskedPending(prefix: seq<Attempt>, a: Attempt)
    requires Failing(prefix) && a.WrongSymbolFailure() && Relevant(prefix) != []
    ensures !RightSoFar(prefix + [a])
  {
    assert Failing(prefix + [a]);
    RelevantAppend(prefix, a);
    RelevantOpenIntervals(prefix);
    LastErrorIsLastFailure(prefix + [a]);
    assert Relevant(prefix + [a]) == Relevant(prefix);
  }

  /** A label already spoiled: the last failure is a WRONG_SYMBOL one and an interval is pending. */
  lemma AlreadyMasked(shorter: seq<Attempt>, last: Attempt)
    requires Failing(shorter) && last.WrongSymbolFailure() && Relevant(shorter + [last]) != []
    ensures !RightSoFar(shorter + [last])
  {
    RelevantAppend(shorter, last);
    MaskedPending(shorter, last);
  }

  lemma NothingPending(prefix: seq<Attempt>)
    requires Failing(prefix) && Relevant(prefix) == []
    ensures RightSoFar(prefix)
    ensures prefix != [] ==> prefix[|prefix| - 1].WrongSymbolFailure()
  {
  }

  lemma MaskWithoutPending(prefix: seq<Attempt>, a: Attempt)
    requires Failing(prefix) && a.WrongSymbolFailure() && Relevant(prefix) == []
    ensures RightSoFar(prefix + [a]) && RightSoFar(prefix)
    ensures NeverMasked(prefix + [a]) <==> NeverMasked(prefix)
  {
    NeverMaskedAppend(prefix, a);
    RelevantAppend(prefix, a);
    assert Failing(prefix + [a]);
    NothingPending(prefix);
    NothingPending(prefix + [a]);
  }

  lemma MaskWhilePending(prefix: seq<Attempt>, a: Attempt)
    requires Failing(prefix) && a.WrongSymbolFailure() && Relevant(prefix) != []
    requires NeverMasked(prefix) ==> RightSoFar(prefix)
    ensures !NeverMasked(prefix + [a])
  {
    NeverMaskedAppend(prefix, a);
    if prefix[|prefix| - 1].WrongSymbolFailure() {
      assert prefix == prefix[..|prefix| - 1] + [prefix[|prefix| - 1]];
      AlreadyMasked(prefix[..|prefix| - 1], prefix[|prefix| - 1]);
    }
  }

  lemma RightAfterMask(prefix: seq<Attempt>, a: Attempt)
    requires Failing(prefix) && a.WrongSymbolFailure() && (RightSoFar(prefix) <==> NeverMasked(prefix))
    ensures RightSoFar(prefix + [a]) <==> NeverMasked(prefix + [a])
  {
    if Relevant(prefix) == [] {
      MaskWithoutPending(prefix, a);
    } else {
      MaskedPending(prefix, a);
      MaskWhilePending(prefix, a);
    }
  }

  lemma AppendedRight(prefix: seq<Attempt>, a: Attempt)
    requires Failing(prefix) && a.OpensInterval()
    ensures PendingRight(After(prefix + [a]), Relevant(prefix + [a]))
    ensures Recorded(Relevant(prefix + [a])) == |Relevant(prefix)|
    ensures After(prefix + [a]).gaps == After(prefix).gaps + Closed(After(prefix), a) + []
  {
    assert Failing(prefix + [a]);
    RelevantAppend(prefix, a);
    LastErrorIsLastFailure(prefix + [a]);
    AfterAppend(prefix, a);
  }

  lemma RightAfterInterval(prefix: seq<Attempt>, a: Attempt)
    requires Failing(prefix) && a.OpensInterval()
    ensures RightSoFar(prefix + [a]) <==> RightSoFar(prefix)
  {
    AppendedRight(prefix, a);
    RelevantAppend(prefix, a);
    FailuresTracked(prefix);
    if Relevant(prefix) != [] {
      ClosedReasons(After(prefix), Relevant(prefix), a, []);
    }
  }

  lemma RightStep(prefix: seq<Attempt>, a: Attempt)
    requires Failing(prefix) && a.outcome.Raised? && (RightSoFar(prefix) <==> NeverMasked(prefix))
    ensures RightSoFar(prefix + [a]) <==> NeverMasked(prefix + [a])
  {
    if a.OpensInterval() {
      NeverMaskedAppend(prefix, a);
      RightAfterInterval(prefix, a);
    } else {
      RightAfterMask(prefix, a);
    }
  }

  lemma {:induction false} RightSoFarExactly(made: seq<Attempt>)
    requires Failing(made)
    ensures RightSoFar(made) <==> NeverMasked(made)
  {
    if made == [] {
      NothingPending(made);
    } else {
      var prefix, a := made[..|made| - 1], made[|made| - 1];
      assert made == prefix + [a];
      RightSoFarExactly(prefix);
      RightStep(prefix, a);
    }
  }

  lemma DropsKeepReasons(gaps: seq<GapCall>, more: seq<GapCall>, rel: seq<Attempt>)
    requires |rel| == |gaps|
    ensures ReasonsRight(gaps + more, rel, |rel|) <==> ReasonsRight(gaps, rel, |rel|)
  {
    forall k | 0 <= k < |gaps|
      ensures (gaps + more)[k] == gaps[k]
    {
    }
    if ReasonsRight(gaps + more, rel, |rel|) {
      forall k | 0 <= k < |gaps|
        ensures rel[k].outcome.Raised? && ReasonRight(gaps, rel, k)
      {
        assert ReasonRight(gaps + more, rel, k);
      }
    }
    if ReasonsRight(gaps, rel, |rel|) {
      forall k | 0 <= k < |gaps|
        ensures rel[k].outcome.Raised? && ReasonRight(gaps + more, rel, k)
      {
        assert ReasonRight(gaps, rel, k);
      }
    }
  }

  /** An interval is labelled with the last error before it is closed; over failures only, at the end. */
  lemma FailureReasons(made: seq<Attempt>, endTime: int)
    requires Failing(made)
    ensures ReasonsRight(Report(made, endTime).gaps, Relevant(made), Intervals(made)) <==> NeverMasked(made)
  {
    var s, rel := After(made), Relevant(made);
    FailuresTracked(made);
    RelevantCount(made);
    RightSoFarExactly(made);
    if rel != [] {
      var g := Closing(s.pending.value, endTime, None, s.errors[|s.errors| - 1]);
      ReasonsAppend(s.gaps, g, rel, rel[0]);
    }
  }

  lemma SuccessReasons(prefix: seq<Attempt>, a: Attempt, endTime: int)
    requires Failing(prefix) && a.Succeeds()
    ensures ReasonsRight(Report(prefix + [a], endTime).gaps, Relevant(prefix + [a]), Intervals(prefix + [a]))
            <==> NeverMasked(prefix + [a])
  {
    ReportAtSuccess(prefix, a, endTime);
    RelevantCount(prefix);
    NeverMaskedAppend(prefix, a);
    LabelsAtSuccess(prefix, a);
  }

  lemma LabelsAtSuccess(prefix: seq<Attempt>, a: Attempt)
    requires Failing(prefix) && a.Succeeds()
    ensures ReasonsRight(After(prefix).gaps + Closed(After(prefix), a) + Drop(a), Relevant(prefix) + [a],
        |Relevant(prefix)|)
            <==> NeverMasked(prefix)
  {
    RightSoFarExactly(prefix);
    FailuresTracked(prefix);
    if Relevant(prefix) != [] {
      ClosedReasons(After(prefix), Relevant(prefix), a, Drop(a));
    }
  }

  lemma ClosedReasons(s: RunState, rel: seq<Attempt>, a: Attempt, more: seq<GapCall>)
    requires Sound(s) && Tracked(s, rel) && rel != [] && !a.WrongSymbolFailure()
    ensures ReasonsRight(s.gaps + Closed(s, a) + more, rel + [a], |rel|)
            <==> ReasonsRight(s.gaps, rel, |rel| - 1) && PendingRight(s, rel)
  {
    var g := Closing(s.pending.value, a.attemptedAt, Some(a.session), s.errors[|s.errors| - 1]);
    ReasonsAppend(s.gaps, g, rel, a);
    DropsKeepReasons(s.gaps + [g], more, rel);
    RelevantPrefix(s.gaps + [g] + more, rel, a);
  }

  lemma ReportAtSuccess(prefix: seq<Attempt>, a: Attempt, endTime: int)
    requires a.Succeeds()
    ensures Report(prefix + [a], endTime).gaps == After(prefix).gaps + Closed(After(prefix), a) + Drop(a)
    ensures Relevant(prefix + [a]) == Relevant(prefix) + [a] && Intervals(prefix + [a]) == Intervals(prefix)
  {
    assert (prefix + [a])[..|prefix|] == prefix;
  }

  lemma RelevantPrefix(gaps: seq<GapCall>, rel: seq<Attempt>, b: Attempt)
    requires |gaps| >= |rel|
    ensures ReasonsRight(gaps, rel + [b], |rel|) <==> ReasonsRight(gaps, rel, |rel|)
  {
    forall k | 0 <= k < |rel|
      ensures (rel + [b])[k] == rel[k]
    {
    }
    if ReasonsRight(gaps, rel + [b], |rel|) {
      forall k | 0 <= k < |rel|
        ensures rel[k].outcome.Raised? && ReasonRight(gaps, rel, k)
      {
        assert ReasonRight(gaps, rel + [b], k);
      }
    }
    if ReasonsRight(gaps, rel, |rel|) {
      forall k | 0 <= k < |rel|
        ensures (rel + [b])[k].outcome.Raised? && ReasonRight(gaps, rel + [b], k)
      {
        assert ReasonRight(gaps, rel, k);
      }
    }
  }

  /** Main result: every gap names the failure that opened it exactly when no WRONG_SYMBOL failure directly
      follows such a failure. */
  lemma ReasonsRightExactly(made: seq<Attempt>, endTime: int)
    requires Supervised(made)
    ensures ReasonsRight(Report(made, endTime).gaps, Relevant(made), Intervals(made)) <==> NeverMasked(made)
  {
    if made != [] && made[|made| - 1].Succeeds() {
      assert made == made[..|made| - 1] + [made[|made| - 1]];
      SuccessReasons(made[..|made| - 1], made[|made| - 1], endTime);
    } else {
      FailureReasons(made, endTime);
    }
  }

  /** A failure that opens an interval followed only by a message for another symbol: the gap blames the symbol. */
  lemma MaskedReason(lost: Attempt, other: Attempt, endTime: int)
    requires lost.OpensInterval() && other.WrongSymbolFailure()
    ensures var gaps := Report([lost, other], endTime).gaps;
            |gaps| == 1 && gaps[0].start == lost.outcome.failedAt && gaps[0].reason == Disconnected(WrongSymbol)
  {
    assert [] + [lost] == [lost] && [lost] + [other] == [lost, other];
    AfterAppend([], lost);
    AfterAppend([lost], other);
    var s := After([lost]);
    assert Closed(Start, lost) == [] && Closed(s, other) == [];
  }

  lemma {:induction false} UpperKeeps(s: string)
    requires forall i :: 0 <= i < |s| ==> !('a' <= s[i] <= 'z')
    ensures Upper(s) == s
  {
    if s != [] {
      UpperKeeps(s[1..]);
      assert s == [s[0]] + s[1..];
    }
  }

  lemma SuchFailuresExist() returns (lost: Attempt, other: Attempt)
    ensures lost.OpensInterval() && lost.Why() == NetworkFailure && other.WrongSymbolFailure()
  {
    lost := Attempt(10, "s1", 1, Raised(OsError, "", None, 2));
    other := Attempt(8, "s2", 3, Raised(OtherValueError, "SYMBOL", None, 4));
    UpperKeeps("SYMBOL");
    assert OccursAt("SYMBOL", "SYMBOL", 0);
  }
}
