/** `_unrecoverable_gap` and `_run_stream` of liquidation_soak.py, updating their variables and the gap registry. */
module SoakRunner {
  import opened Common
  import opened LiquidationSoak
  import opened GapRegistry

  datatype StreamSpec = StreamSpec(exchange: string)

  function ReasonCode(r: GapReason): string {
    match r
    case ConfirmedLocalDrop => "CONFIRMED_LOCAL_DROP"
    case Disconnected(reason) =>
      match reason
      case WrongSymbol => "WRONG_SYMBOL"
      case UnknownSchema => "UNKNOWN_SCHEMA"
      case InvalidSourceMessage => "INVALID_SOURCE_MESSAGE"
      case NetworkFailure => "NETWORK_FAILURE"
      case ProcessError => "PROCESS_ERROR"
  }

  function FactsOf(spec: StreamSpec, g: GapCall): Facts {
    Facts(spec.exchange, "perpetual", "liquidations", g.start, g.end, Some(g.before), g.after, NoId, NoId)
  }

  /** Each reason has its own code. */
  lemma ReasonCodesDistinct(a: GapReason, b: GapReason)
    ensures ReasonCode(a) == ReasonCode(b) <==> a == b
  {
    assert |ReasonCode(Disconnected(WrongSymbol))| == 12 && |ReasonCode(Disconnected(UnknownSchema))| == 14;
    assert |ReasonCode(Disconnected(InvalidSourceMessage))| == 22 && |ReasonCode(Disconnected(NetworkFailure))| == 15;
    assert |ReasonCode(Disconnected(ProcessError))| == 13 && |ReasonCode(ConfirmedLocalDrop)| == 20;
  }

  /** How the registry lists a gap of the run: closed for good, with its reason. */
  function Filed(id: nat, spec: StreamSpec, g: GapCall): Entry {
    Entry(id, FactsOf(spec, g), Unrecoverable, FreshRecovery, Disconnect(ReasonCode(g.reason), g.dropped))
  }

  /** The gaps of a run as the registry lists them, under consecutive new ids. */
  function FiledAll(first: nat, spec: StreamSpec, gaps: seq<GapCall>): seq<Entry> {
    if gaps == [] then []
    else FiledAll(first, spec, gaps[..|gaps| - 1]) + [Filed(first + |gaps| - 1, spec, gaps[|gaps| - 1])]
  }

  lemma FiledAppend(first: nat, spec: StreamSpec, gaps: seq<GapCall>, g: GapCall)
    ensures FiledAll(first, spec, gaps + [g]) == FiledAll(first, spec, gaps) + [Filed(first + |gaps|, spec, g)]
  {
    assert (gaps + [g])[..|gaps|] == gaps;
  }

  lemma {:induction false} FiledAt(first: nat, spec: StreamSpec, gaps: seq<GapCall>)
    ensures |FiledAll(first, spec, gaps)| == |gaps|
    ensures forall k :: 0 <= k < |gaps| ==> FiledAll(first, spec, gaps)[k] == Filed(first + k, spec, gaps[k])
  {
    if gaps != [] {
      FiledAt(first, spec, gaps[..|gaps| - 1]);
    }
  }

  /** Registers a gap and closes it as unrecoverable. */
  method UnrecoverableGap(registry: Registry, spec: StreamSpec, start: int, end: int, before: string,
                          after: Option<string>, reason: GapReason) returns (record: GapRecord, ghost call: GapCall)
    requires registry.Valid()
    modifies registry
    ensures registry.Valid() && fresh(record) && registry.minted == old(registry.minted) + 1
    ensures record.id == old(registry.minted)
    ensures call == GapCall(start, Max(end, start), before, after, reason, None)
    ensures record.Snapshot() == Filed(old(registry.minted), spec, call)
    ensures record.status == Unrecoverable && !record.coverageProven && !record.recoveryAttempted
    ensures record.facts.start == start && record.facts.end == (if end > start then end else start)
    ensures record.facts.sessionBefore == Some(before) && record.facts.sessionAfter == after
    ensures record.facts.exchange == spec.exchange && record.facts.datasetClass == "liquidations"
    ensures old(registry.log) <= registry.log
    ensures Listed(registry.log) == Listed(old(registry.log)) + [record.Snapshot()]
  {
    var g := GapCall(start, Max(end, start), before, after, reason, None);
    call := g;
    record := registry.RegisterGap(FactsOf(spec, g), Disconnect(ReasonCode(reason), None));
    ghost var log, open := registry.log, record.Snapshot();
    record.status := Unrecoverable;
    record.coverageProven := false;
    record.recoveryAttempted := false;
    UpdateReplacesLast(log, Listed(old(registry.log)), open, record.Snapshot());
    registry.UpdateGap(record);
  }

  /** Where a run began: what the registry held and the next id it would mint. */
  datatype Beginning = Beginning(log: Log, nextId: nat)

  /** The registry holds what it held at the beginning, and the gaps of the run so far under the ids `gapIds`. */
  ghost predicate Filing(registry: Registry, spec: StreamSpec, b: Beginning, gaps: seq<GapCall>, gapIds: seq<nat>)
    reads registry
  {
    && registry.Valid() && b.log <= registry.log
    && registry.minted == b.nextId + |gaps|
    && Listed(registry.log) == Listed(b.log) + FiledAll(b.nextId, spec, gaps)
    && |gapIds| == |gaps| && forall i :: 0 <= i < |gapIds| ==> gapIds[i] == b.nextId + i
  }

  /** `gap = _unrecoverable_gap(...); gap_ids.append(gap.gap_id)` for a pending interval. */
  method CloseInterval(pending: Pending, at: int, after: Option<string>, reason: Reason,
                       registry: Registry, spec: StreamSpec, gapIds: seq<nat>,
                       ghost b: Beginning, ghost gaps: seq<GapCall>)
      returns (gapIds': seq<nat>)
    requires Filing(registry, spec, b, gaps, gapIds)
    modifies registry
    ensures Filing(registry, spec, b, gaps + [Closing(pending, at, after, reason)], gapIds')
  {
    FiledAppend(b.nextId, spec, gaps, Closing(pending, at, after, reason));
    var record, _ := UnrecoverableGap(registry, spec, pending.failedAt, at, pending.session, after,
        Disconnected(reason));
    gapIds' := gapIds + [record.id];
  }

  /** A confirmed drop: the gap gets the number of dropped messages as evidence, and is appended again. */
  method FileDrop(start: int, end: int, session: string, dropped: int, registry: Registry, spec: StreamSpec,
                  gapIds: seq<nat>, ghost b: Beginning, ghost gaps: seq<GapCall>)
      returns (gapIds': seq<nat>)
    requires Filing(registry, spec, b, gaps, gapIds)
    modifies registry
    ensures Filing(registry, spec, b,
                   gaps + [GapCall(start, Max(end, start), session, None, ConfirmedLocalDrop, Some(dropped))], gapIds')
  {
    ghost var call := GapCall(start, Max(end, start), session, None, ConfirmedLocalDrop, Some(dropped));
    FiledAppend(b.nextId, spec, gaps, call);
    var record, _ := UnrecoverableGap(registry, spec, start, end, session, None, ConfirmedLocalDrop);
    ghost var log, open := registry.log, record.Snapshot();
    record.evidence := Disconnect(ReasonCode(ConfirmedLocalDrop), Some(dropped));
    assert record.Snapshot() == Filed(b.nextId + |gaps|, spec, call);
    UpdateReplacesLast(log, Listed(b.log) + FiledAll(b.nextId, spec, gaps), open, record.Snapshot());
    registry.UpdateGap(record);
    gapIds' := gapIds + [record.id];
  }

  /** The loop over the wire hashes of an attempt. */
  method CountHashes(hashes: seq<string>, seen: set<string>) returns (duplicates: nat, seen': set<string>)
    ensures duplicates == Repeats(seen, hashes)
    ensures seen' == seen + AsSet(hashes)
  {
    duplicates, seen' := 0, seen;
    for i := 0 to |hashes|
      invariant seen' == seen + AsSet(hashes[..i])
      invariant duplicates + Repeats(seen', hashes[i..]) == Repeats(seen, hashes)
    {
      assert hashes[i..][1..] == hashes[i + 1..];
      assert AsSet(hashes[..i + 1]) == AsSet(hashes[..i]) + {hashes[i]};
      if hashes[i] in seen' {
        duplicates := duplicates + 1;
      }
      seen' := seen' + {hashes[i]};
    }
    assert hashes[..|hashes|] == hashes;
  }

  /** The counters both outcomes update. */
  method CountTraffic(totals: Totals, seen: set<string>, a: Attempt) returns (totals': Totals, seen': set<string>)
    ensures totals' == Counted(totals, seen, a, totals.attempts > 0)
    ensures seen' == seen + AsSet(a.Seen().hashes)
  {
    totals' := totals.(attempts := totals.attempts + 1);
    if totals.attempts > 0 {
      totals' := totals'.(reconnects := totals'.reconnects + 1);
    }
    var t := a.Seen();
    totals' := totals'.(messages := totals'.messages + t.messages, events := totals'.events + t.events,
                        persisted := totals'.persisted + t.persisted);
    var duplicates;
    duplicates, seen' := CountHashes(t.hashes, seen);
    totals' := totals'.(duplicates := totals'.duplicates + duplicates);
  }

  /** The registry part of a success: the pending interval, then the drop. */
  method FileSuccess(s: RunState, a: Attempt, registry: Registry, spec: StreamSpec, gapIds: seq<nat>,
                     ghost b: Beginning)
      returns (gapIds': seq<nat>)
    requires Filing(registry, spec, b, s.gaps, gapIds) && Sound(s) && a.Succeeds()
    modifies registry
    ensures Filing(registry, spec, b, s.gaps + Closed(s, a) + Drop(a), gapIds')
  {
    gapIds' := gapIds;
    if s.pending.Some? {
      gapIds' := CloseInterval(s.pending.value, a.attemptedAt, Some(a.session), s.errors[|s.errors| - 1],
                               registry, spec, gapIds', b, s.gaps);
    } else {
      assert s.gaps + Closed(s, a) == s.gaps;
    }
    if a.outcome.dropped > 0 {
      gapIds' := FileDrop(a.outcome.dropStart, a.outcome.endedAt, a.session, a.outcome.dropped,
                          registry, spec, gapIds', b, s.gaps + Closed(s, a));
    } else {
      assert s.gaps + Closed(s, a) + Drop(a) == s.gaps + Closed(s, a);
    }
  }

  /** The `try` body after the attempt returned; `s` holds the local variables. */
  method OnSuccess(s: RunState, a: Attempt, registry: Registry, spec: StreamSpec, gapIds: seq<nat>, ghost b: Beginning)
      returns (s': RunState, gapIds': seq<nat>)
    requires Filing(registry, spec, b, s.gaps, gapIds) && Sound(s) && a.Succeeds()
    modifies registry
    ensures s' == AfterSuccess(s, a) && Filing(registry, spec, b, s'.gaps, gapIds')
  {
    gapIds' := FileSuccess(s, a, registry, spec, gapIds, b);
    s' := RecordSuccess(s, a);
  }

  /** The local variables after a success. */
  method RecordSuccess(s: RunState, a: Attempt) returns (s': RunState)
    requires Sound(s) && a.Succeeds()
    ensures s' == AfterSuccess(s, a)
  {
    var totals, seen := CountTraffic(s.totals, s.seen, a);
    totals := totals.(connects := totals.connects + (if a.outcome.transportPass then 1 else 0),
                      acks := totals.acks + (if a.outcome.subscriptionPass then 1 else 0),
                      dropped := totals.dropped + a.outcome.dropped);
    var gapped := s.gapped;
    if s.pending.Some? {
      gapped := true;
    }
    if a.outcome.dropped > 0 {
      gapped := true;
    }
    s' := RunState(totals, s.gaps + Closed(s, a) + Drop(a), s.errors, seen, gapped, None);
  }

  method FileFailure(s: RunState, errors: seq<Reason>, a: Attempt, registry: Registry, spec: StreamSpec,
                     gapIds: seq<nat>, ghost b: Beginning)
      returns (gapIds': seq<nat>)
    requires Filing(registry, spec, b, s.gaps, gapIds) && Sound(s) && a.outcome.Raised?
        && errors == s.errors + [a.Why()]
    modifies registry
    ensures Filing(registry, spec, b, s.gaps + Closed(s, a), gapIds')
  {
    if a.Why() != WrongSymbol && s.pending.Some? {
      gapIds' := CloseInterval(s.pending.value, a.attemptedAt, Some(a.session), errors[|errors| - 2],
                               registry, spec, gapIds, b, s.gaps);
    } else {
      gapIds' := gapIds;
      assert s.gaps + Closed(s, a) == s.gaps;
    }
  }

  /** The `except` branch. */
  method OnFailure(s: RunState, a: Attempt, registry: Registry, spec: StreamSpec, gapIds: seq<nat>, ghost b: Beginning)
      returns (s': RunState, gapIds': seq<nat>)
    requires Filing(registry, spec, b, s.gaps, gapIds) && Sound(s) && a.outcome.Raised?
    modifies registry
    ensures s' == AfterFailure(s, a) && Filing(registry, spec, b, s'.gaps, gapIds')
  {
    var reason := Classify(a.outcome.kind, a.outcome.message);
    gapIds' := FileFailure(s, s.errors + [reason], a, registry, spec, gapIds, b);
    var totals, seen := CountTraffic(s.totals, s.seen, a);
    totals := totals.(disconnects := totals.disconnects + 1,
                      parserRejects := totals.parserRejects + ParserRejects(reason),
                      wrongSymbolRejects := totals.wrongSymbolRejects + if reason == WrongSymbol then 1 else 0);
    var pending, gapped := s.pending, s.gapped;
    if reason != WrongSymbol {
      pending, gapped := Some(Pending(a.outcome.failedAt, a.session)), true;
    }
    s' := RunState(totals, s.gaps + Closed(s, a), s.errors + [reason], seen, gapped, pending);
  }

  /** After the attempts. */
  method Finish(s: RunState, endTime: int, registry: Registry, spec: StreamSpec, gapIds: seq<nat>, ghost b: Beginning)
      returns (s': RunState, gapIds': seq<nat>)
    requires Filing(registry, spec, b, s.gaps, gapIds) && Sound(s)
    modifies registry
    ensures s' == Final(s, endTime) && Filing(registry, spec, b, s'.gaps, gapIds')
  {
    s', gapIds' := s, gapIds;
    if s.pending.Some? {
      var last := s.errors[|s.errors| - 1];
      gapIds' := CloseInterval(s.pending.value, endTime, None, last, registry, spec, gapIds, b, s.gaps);
      s' := s'.(gaps := s.gaps + [Closing(s.pending.value, endTime, None, last)]);
    }
    if s.totals.dropped > 0 {
      s' := s'.(gapped := true);
    }
  }

  /** One stream: attempts until a success, the deadline or the limit.  The registry ends up listing, after what
      it listed before, every gap of the run, closed as unrecoverable. */
  method RunStream(script: nat -> Attempt, limit: nat, endTime: int, spec: StreamSpec, registry: Registry)
      returns (report: RunState, gapIds: seq<nat>, sessions: seq<string>)
    requires registry.Valid()
    modifies registry
    ensures report == Report(Made(script, 0, limit), endTime)
    ensures Filing(registry, spec, Beginning(old(registry.log), old(registry.minted)), report.gaps, gapIds)
    ensures sessions == Sessions(Made(script, 0, limit))
  {
    ghost var b := Beginning(registry.log, registry.minted);
    var s := Start;
    gapIds, sessions := [], [];
    ghost var made: seq<Attempt> := [];
    var attempt, open := 0, true;
    while open && attempt < limit && script(attempt).remaining > 0
      invariant Filing(registry, spec, b, s.gaps, gapIds) && s == After(made) && sessions == Sessions(made)
      invariant Made(script, 0, limit) == made + if open then Made(script, attempt, limit) else []
      decreases limit - attempt, open
    {
      var a := script(attempt);
      MadeStep(script, attempt, limit, made);
      AfterAppend(made, a);
      SessionsAppend(made, a);
      made, sessions := made + [a], sessions + [a.session];
      if a.Succeeds() {
        s, gapIds := OnSuccess(s, a, registry, spec, gapIds, b);
        open := false;
      } else {
        s, gapIds := OnFailure(s, a, registry, spec, gapIds, b);
        attempt := attempt + 1;
      }
    }
    assert made == Made(script, 0, limit);
    report, gapIds := Finish(s, endTime, registry, spec, gapIds, b);
  }

  lemma MadeStep(script: nat -> Attempt, i: nat, limit: nat, made: seq<Attempt>)
    requires i < limit && script(i).remaining > 0
    ensures made + Made(script, i, limit)
            == made + [script(i)] + if script(i).Succeeds() then [] else Made(script, i + 1, limit)
  {
  }

  function Sessions(made: seq<Attempt>): seq<string> {
    seq(|made|, i requires 0 <= i < |made| => made[i].session)
  }

  lemma SessionsAppend(made: seq<Attempt>, a: Attempt)
    ensures Sessions(made + [a]) == Sessions(made) + [a.session]
  {
  }
}
