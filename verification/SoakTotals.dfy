/** The counters, reasons and drop gap of a soak run, in terms of what its attempts did. */
module SoakTotals {
  import opened Common
  import opened Strings
  import opened LiquidationSoak

  // ---------------------------------------------------------------- counters

  datatype Measure = Messages | Events | PersistedRows | Connects | Acks | ParserRejected | WrongSymbols

  function One(b: bool): int {
    if b then 1 else 0
  }

  /** What an attempt reports, or saved before it raised. */
  function Reported(o: Outcome): Option<Traffic> {
    match o
    case Completed(_, _, traffic, _, _, _, _) => Some(traffic)
    case Raised(_, _, buffered, _) => buffered
  }

  function Reading(a: Attempt, m: Measure): int {
    match m
    case Messages => if Reported(a.outcome).Some? then Reported(a.outcome).value.messages else 0
    case Events => if Reported(a.outcome).Some? then Reported(a.outcome).value.events else 0
    case PersistedRows => if Reported(a.outcome).Some? then Reported(a.outcome).value.persisted else 0
    case Connects => One(a.outcome.Completed? && a.outcome.transportPass)
    case Acks => One(a.outcome.Completed? && a.outcome.subscriptionPass)
    case ParserRejected =>
      One(a.outcome.Raised? && (a.Why() == WrongSymbol || a.Why() == UnknownSchema || a.Why() == InvalidSourceMessage))
    case WrongSymbols => One(a.outcome.Raised? && a.Why() == WrongSymbol)
  }

  function SumOver(made: seq<Attempt>, m: Measure): int {
    if made == [] then 0 else SumOver(made[..|made| - 1], m) + Reading(made[|made| - 1], m)
  }

  /** Main result: each counter of the report is the sum of that reading over all attempts, whatever happened
      in them. */
  lemma {:induction false} CountersExactly(made: seq<Attempt>)
    ensures After(made).totals.messages == SumOver(made, Messages)
    ensures After(made).totals.events == SumOver(made, Events)
    ensures After(made).totals.persisted == SumOver(made, PersistedRows)
    ensures After(made).totals.connects == SumOver(made, Connects)
    ensures After(made).totals.acks == SumOver(made, Acks)
    ensures After(made).totals.parserRejects == SumOver(made, ParserRejected)
    ensures After(made).totals.wrongSymbolRejects == SumOver(made, WrongSymbols)
  {
    if made != [] {
      CountersExactly(made[..|made| - 1]);
      CountersStep(After(made[..|made| - 1]), made[|made| - 1]);
    }
  }

  lemma CountersStep(s: RunState, a: Attempt)
    requires Sound(s)
    ensures var t := (if a.Succeeds() then AfterSuccess(s, a) else AfterFailure(s, a)).totals;
            && t.messages == s.totals.messages + Reading(a, Messages)
            && t.events == s.totals.events + Reading(a, Events)
            && t.persisted == s.totals.persisted + Reading(a, PersistedRows)
            && t.connects == s.totals.connects + Reading(a, Connects)
            && t.acks == s.totals.acks + Reading(a, Acks)
            && t.parserRejects == s.totals.parserRejects + Reading(a, ParserRejected)
            && t.wrongSymbolRejects == s.totals.wrongSymbolRejects + Reading(a, WrongSymbols)
  {
  }

  /** A success that dropped messages adds a last gap over its connection, with the number dropped. */
  lemma DropGapExactly(made: seq<Attempt>, endTime: int)
    requires Supervised(made) && made != [] && made[|made| - 1].Succeeds()
    ensures var last, gaps := made[|made| - 1], Report(made, endTime).gaps;
            && Report(made, endTime).totals.dropped == last.outcome.dropped
            && |gaps| == Intervals(made) + One(last.outcome.dropped > 0)
            && (last.outcome.dropped > 0 ==>
                  && gaps[|gaps| - 1].start == last.outcome.dropStart
                  && gaps[|gaps| - 1].end == (if last.outcome.endedAt > last.outcome.dropStart then last.outcome.endedAt
                                              else last.outcome.dropStart)
                  && gaps[|gaps| - 1].before == last.session && gaps[|gaps| - 1].after == None
                  && gaps[|gaps| - 1].reason == ConfirmedLocalDrop
                  && gaps[|gaps| - 1].dropped == Some(last.outcome.dropped))
  {
    DroppedOnlyAtSuccess(made);
    GapsAccountExactly(made, endTime);
    var gaps, n := Report(made, endTime).gaps, Intervals(made);
    assert |gaps| > n ==> gaps[n..][0] == gaps[n];
  }

  // ---------------------------------------------------------------- reasons

  predicate MatchesAt(message: string, capitals: string, i: nat) {
    && i + |capitals| <= |message|
    && forall j :: 0 <= j < |capitals| ==>
         message[i + j] == capitals[j] || ('a' <= message[i + j] <= 'z' && message[i + j] - 'a' + 'A' == capitals[j])
  }

  /** The word occurs in the message, in any mixture of cases. */
  predicate Mentions(message: string, capitals: string) {
    exists i: nat | i <= |message| :: MatchesAt(message, capitals, i)
  }

  predicate Capital(s: string) {
    forall i :: 0 <= i < |s| ==> 'A' <= s[i] <= 'Z'
  }

  lemma {:induction false} UpperAt(s: string)
    ensures |Upper(s)| == |s|
    ensures forall i :: 0 <= i < |s| ==> Upper(s)[i] == if 'a' <= s[i] <= 'z' then s[i] - 'a' + 'A' else s[i]
  {
    if s != [] {
      UpperAt(s[1..]);
    }
  }

  lemma MatchesExactly(message: string, capitals: string, i: nat)
    requires Capital(capitals)
    ensures OccursAt(Upper(message), capitals, i) <==> MatchesAt(message, capitals, i)
  {
    UpperAt(message);
    if i + |capitals| <= |message| {
      var part := Upper(message)[i..i + |capitals|];
      assert forall j :: 0 <= j < |capitals| ==> part[j] == Upper(message)[i + j];
    }
  }

  lemma MentionsExactly(message: string, capitals: string)
    requires Capital(capitals)
    ensures HasSubstring(Upper(message), capitals) <==> Mentions(message, capitals)
  {
    UpperAt(message);
    if i: nat :| i <= |message| && OccursAt(Upper(message), capitals, i) {
      MatchesExactly(message, capitals, i);
    }
    if i: nat :| i <= |message| && MatchesAt(message, capitals, i) {
      MatchesExactly(message, capitals, i);
    }
  }

  /**
   The reason of a failure: a symbol or topic mentioned in any case wins, then the kind of the error, then a mention
   of a connection or the WebSocket.
   */
  lemma ReasonExactly(kind: ErrorKind, message: string)
    ensures Classify(kind, message)
            == if Mentions(message, "SYMBOL") || Mentions(message, "TOPIC") then WrongSymbol
               else match kind
                    case KeyErrorOrJson => UnknownSchema
                    case OtherValueError => InvalidSourceMessage
                    case OsError => NetworkFailure
                    case OtherError =>
                      if Mentions(message, "CONNECT") || Mentions(message, "WEBSOCKET") then NetworkFailure
                      else ProcessError
  {
    MentionsExactly(message, "SYMBOL");
    MentionsExactly(message, "TOPIC");
    MentionsExactly(message, "CONNECT");
    MentionsExactly(message, "WEBSOCKET");
  }

  // ---------------------------------------------------------------- which attempts are made

  /** The attempts run from number `i`, each with time left. */
  ghost predicate Follows(made: seq<Attempt>, script: nat -> Attempt, i: nat) {
    forall k :: 0 <= k < |made| ==> made[k] == script(i + k) && made[k].remaining > 0
  }

  /** They end at a success, at the limit, or when no time is left. */
  ghost predicate EndsWell(made: seq<Attempt>, script: nat -> Attempt, i: nat, limit: nat) {
    || (made != [] && made[|made| - 1].Succeeds())
    || i + |made| >= limit || script(i + |made|).remaining <= 0
  }

  lemma ConsFollows(script: nat -> Attempt, i: nat, rest: seq<Attempt>)
    requires Follows(rest, script, i + 1) && script(i).remaining > 0
    ensures Follows([script(i)] + rest, script, i)
  {
    var made := [script(i)] + rest;
    forall k | 0 <= k < |made|
      ensures made[k] == script(i + k) && made[k].remaining > 0
    {
      assert k > 0 ==> made[k] == rest[k - 1] == script(i + 1 + (k - 1));
    }
  }

  lemma {:induction false} MadeFrom(script: nat -> Attempt, i: nat, limit: nat)
    requires i <= limit
    ensures |Made(script, i, limit)| <= limit - i
    ensures Follows(Made(script, i, limit), script, i) && EndsWell(Made(script, i, limit), script, i, limit)
    decreases limit - i
  {
    if i < limit && script(i).remaining > 0 && !script(i).Succeeds() {
      MadeFrom(script, i + 1, limit);
      ConsFollows(script, i, Made(script, i + 1, limit));
    }
  }

  /** Main result: attempts are made in order while time is left, up to the limit, and stop at the first
      success only. */
  lemma MadeExactly(script: nat -> Attempt, limit: nat)
    ensures var made := Made(script, 0, limit);
            && |made| <= limit && Follows(made, script, 0) && EndsWell(made, script, 0, limit)
            && forall k :: 0 <= k < |made| - 1 ==> !made[k].Succeeds()
  {
    MadeFrom(script, 0, limit);
    MadeIsSupervised(script, 0, limit);
  }

  /** The error list holds the reason of every failed attempt, in order. */
  lemma {:induction false} ErrorListExactly(made: seq<Attempt>)
    requires Supervised(made)
    ensures var errors := After(made).errors;
            && |errors| == |made| - One(made != [] && made[|made| - 1].Succeeds())
            && forall k :: 0 <= k < |errors| ==> made[k].outcome.Raised? && errors[k] == made[k].Why()
  {
    if made != [] {
      ErrorListExactly(made[..|made| - 1]);
    }
  }
}
