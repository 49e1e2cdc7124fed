/** `build_buckets` of trade_buckets.py: the checked traversal of a source and the rows it accepts. */
module BucketBuilder {
  import Arithmetic
  import opened Common
  import opened Strings
  import opened TradeBuckets
  import opened TradeRollup

  /** The total order (event_time, source_ordinal, native_trade_id). */
  predicate KeyLess(a: Trade, b: Trade) {
    a.time < b.time
    || (a.time == b.time && (a.ordinal < b.ordinal || (a.ordinal == b.ordinal && StringLess(a.tradeId, b.tradeId))))
  }

  datatype BuildError =
    UnsupportedSeconds | NotInTotalOrder | MixedSource | UnknownTakerSide | Truncated | CoverageMismatch

  /** The last manifest event of the source object. */
  datatype SourceEvent = SourceEvent(rowCount: nat, coverageStart: int, coverageEnd: int)

  /** The checks one trade goes through, in the order of the source. */
  function Fault(trades: seq<Trade>, i: nat, day: int): Option<BuildError>
    requires i < |trades|
  {
    if i > 0 && !KeyLess(trades[i - 1], trades[i]) then Some(NotInTotalOrder)
    else if !trades[i].descriptorOk || trades[i].time / DAY_US != day then Some(MixedSource)
    else if trades[i].side == UnknownSide then Some(UnknownTakerSide)
    else None
  }

  /** The source raises at the first faulty trade. */
  function FirstFault(trades: seq<Trade>, day: int, n: nat): Option<BuildError>
    requires n <= |trades|
  {
    if n == 0 then None
    else
      var earlier := FirstFault(trades, day, n - 1);
      if earlier.Some? then earlier else Fault(trades, n - 1, day)
  }

  function BuildSpec(trades: seq<Trade>, seconds: int, day: int, event: SourceEvent)
      : Result<seq<BucketRow>, BuildError> {
    if seconds != 1 && seconds != 5 && seconds != 60 then Err(UnsupportedSeconds)
    else
      var fault := FirstFault(trades, day, |trades|);
      if fault.Some? then Err(fault.value)
      else if |trades| != event.rowCount then Err(Truncated)
      else if trades == [] || trades[0].time != event.coverageStart
          || trades[|trades| - 1].time != event.coverageEnd then
        Err(CoverageMismatch)
      else Ok(PublishedRows(trades, seconds * SECOND_US))
  }

  /** A source the builder accepts: strictly ordered, one instrument, one day, known sides, matching its manifest. */
  predicate Acceptable(trades: seq<Trade>, seconds: int, day: int, event: SourceEvent) {
    && (seconds == 1 || seconds == 5 || seconds == 60)
    && trades != [] && |trades| == event.rowCount
    && trades[0].time == event.coverageStart && trades[|trades| - 1].time == event.coverageEnd
    && (forall i :: 0 < i < |trades| ==> KeyLess(trades[i - 1], trades[i]))
    && (forall i :: 0 <= i < |trades| ==>
          trades[i].descriptorOk && trades[i].time / DAY_US == day && trades[i].side != UnknownSide)
  }

  lemma {:induction false} NoFaultExactly(trades: seq<Trade>, day: int, n: nat)
    requires n <= |trades|
    ensures FirstFault(trades, day, n).None? <==> forall i :: 0 <= i < n ==> Fault(trades, i, day).None?
  {
    if n > 0 {
      NoFaultExactly(trades, day, n - 1);
    }
  }

  /** The builder accepts exactly the acceptable sources. */
  lemma AcceptsExactly(trades: seq<Trade>, seconds: int, day: int, event: SourceEvent)
    ensures BuildSpec(trades, seconds, day, event).Ok? <==> Acceptable(trades, seconds, day, event)
  {
    NoFaultExactly(trades, day, |trades|);
    if Acceptable(trades, seconds, day, event) {
      forall i | 0 <= i < |trades|
        ensures Fault(trades, i, day).None?
      {
      }
    } else if FirstFault(trades, day, |trades|).None? {
      forall i | 0 <= i < |trades|
        ensures trades[i].descriptorOk && trades[i].time / DAY_US == day && trades[i].side != UnknownSide
        ensures i > 0 ==> KeyLess(trades[i - 1], trades[i])
      {
        assert Fault(trades, i, day).None?;
      }
    }
  }

  lemma {:induction false} OrderedPair(trades: seq<Trade>, i: nat, j: nat)
    requires i <= j < |trades| && forall k :: 0 < k < |trades| ==> KeyLess(trades[k - 1], trades[k])
    ensures trades[i].time <= trades[j].time
  {
    if i < j {
      OrderedPair(trades, i, j - 1);
      assert KeyLess(trades[j - 1], trades[j]);
    }
  }

  lemma AcceptableIsOrdered(trades: seq<Trade>, seconds: int, day: int, event: SourceEvent)
    requires Acceptable(trades, seconds, day, event)
    ensures TimeOrdered(trades)
  {
    forall i, j | 0 <= i < j < |trades|
      ensures trades[i].time <= trades[j].time
    {
      OrderedPair(trades, i, j);
    }
  }

  predicate WellShaped(r: BucketRow, width: int)
    requires width > 0
  {
    && r.end == r.start + width && r.start % width == 0
    && r.low <= r.open <= r.high && r.low <= r.close <= r.high
    && r.buyCount + r.sellCount == r.tradeCount
    && r.avgSize <= r.maxSize && r.medianSize <= r.maxSize
  }

  /** Main result: what an accepted source publishes. */
  lemma AcceptedRows(trades: seq<Trade>, seconds: int, day: int, event: SourceEvent)
    requires BuildSpec(trades, seconds, day, event).Ok?
    ensures var rows := BuildSpec(trades, seconds, day, event).value;
            && 0 < |rows| <= 86_400 / seconds
            && (forall i :: 0 <= i < |rows| ==> WellShaped(rows[i], seconds * SECOND_US))
            && (forall i :: 0 < i < |rows| ==> rows[i - 1].end <= rows[i].start)
  {
    AcceptsExactly(trades, seconds, day, event);
    AcceptableIsOrdered(trades, seconds, day, event);
    AtMostOneDayOfRows(trades, seconds, day);
    RowsAreShaped(trades, seconds * SECOND_US);
  }

  lemma RowsDisjoint(trades: seq<Trade>, width: int, i: nat)
    requires width > 0 && TimeOrdered(trades) && 0 < i < |PublishedRows(trades, width)|
    ensures PublishedRows(trades, width)[i - 1].end <= PublishedRows(trades, width)[i].start
  {
    PublishedSlot(trades, width, i - 1);
    PublishedSlot(trades, width, i);
    SlotsAscend(trades, width, i - 1, i);
    Arithmetic.WindowsApart(OnePass(trades, width)[i - 1].slot, OnePass(trades, width)[i].slot, width);
  }

  lemma RowsAreShaped(trades: seq<Trade>, width: int)
    requires width > 0 && TimeOrdered(trades) && trades != []
    requires forall k :: 0 <= k < |trades| ==> trades[k].side != UnknownSide
    ensures PublishedRows(trades, width) != []
    ensures forall i :: 0 <= i < |PublishedRows(trades, width)| ==> WellShaped(PublishedRows(trades, width)[i], width)
    ensures forall i :: 0 < i < |PublishedRows(trades, width)| ==>
              PublishedRows(trades, width)[i - 1].end <= PublishedRows(trades, width)[i].start
  {
    OnePassIsGroupBy(trades, width);
    forall i | 0 <= i < |PublishedRows(trades, width)|
      ensures WellShaped(PublishedRows(trades, width)[i], width)
    {
      RowShape(trades, width, i);
    }
    forall i | 0 < i < |PublishedRows(trades, width)|
      ensures PublishedRows(trades, width)[i - 1].end <= PublishedRows(trades, width)[i].start
    {
      RowsDisjoint(trades, width, i);
    }
  }

  lemma MultipleOfWidth(slot: int, width: int)
    requires width > 0
    ensures slot * width % width == 0
  {
    Arithmetic.DivWindow(slot * width, width, slot);
    assert slot * width == slot * width / width * width + slot * width % width;
  }

  lemma SummaryShape(b: Bucket, g: seq<Trade>)
    requires Summarises(b, g) && forall t :: t in g ==> t.side != UnknownSide
    ensures b.low <= b.open <= b.high && b.low <= b.close <= b.high && b.buyCount + b.sellCount == b.count
    ensures b.sizes != [] && b.count == |b.sizes|
  {
    assert g[0] in g && g[|g| - 1] in g;
    SidesPartition(g);
    SumOfTrades(g);
    assert Cell(b, Trades) == SumOf(g, Trades);
    assert Cell(b, BuyTrades) == SumOf(g, BuyTrades);
    assert Cell(b, SellTrades) == SumOf(g, SellTrades);
  }

  lemma FinishShape(b: Bucket, width: int)
    requires width > 0 && b.sizes != [] && b.count == |b.sizes|
    requires b.low <= b.open <= b.high && b.low <= b.close <= b.high && b.buyCount + b.sellCount == b.count
    ensures WellShaped(Finish(b, width), width)
  {
    SizeColumnsOrdered(b.sizes);
    MultipleOfWidth(b.slot, width);
  }

  lemma RowShape(trades: seq<Trade>, width: int, i: nat)
    requires width > 0 && TimeOrdered(trades) && i < |PublishedRows(trades, width)|
    requires forall k :: 0 <= k < |trades| ==> trades[k].side != UnknownSide
    ensures WellShaped(PublishedRows(trades, width)[i], width)
  {
    OnePassIsGroupBy(trades, width);
    var b := OnePass(trades, width)[i];
    InSlotMembers(trades, width, b.slot);
    SummaryShape(b, InSlot(trades, width, b.slot));
    FinishShape(b, width);
  }

  lemma {:induction false} SidesPartition(g: seq<Trade>)
    requires forall t :: t in g ==> t.side != UnknownSide
    ensures SumOf(g, BuyTrades) + SumOf(g, SellTrades) == SumOf(g, Trades)
  {
    if g != [] {
      SidesPartition(g[..|g| - 1]);
      assert g[|g| - 1] in g;
    }
  }

  function Pending(state: Option<Bucket>): seq<Bucket> {
    if state.Some? then [state.value] else []
  }

  lemma PendingFinishable(trades: seq<Trade>, width: int, finished: seq<Bucket>, b: Bucket)
    requires width > 0 && OnePass(trades, width) == finished + [b]
    ensures Finishable(finished) && b.sizes != [] && b.count == |b.sizes|
    ensures FinishAll(finished, width) + [Finish(b, width)] == PublishedRows(trades, width)
  {
    OnePassFinishable(trades, width);
    assert OnePass(trades, width)[|finished|] == b;
    assert forall i :: 0 <= i < |finished| ==> OnePass(trades, width)[i] == finished[i];
  }

  /** The loop's variables, and what they stand for after the trades seen so far. */
  predicate Tracks(seen: seq<Trade>, width: int, finished: seq<Bucket>, state: Option<Bucket>, rows: seq<BucketRow>)
    requires width > 0
  {
    && OnePass(seen, width) == finished + Pending(state)
    && (state.None? ==> seen == [] && finished == [])
    && Finishable(finished) && rows == FinishAll(finished, width)
  }

  /** Bucketing one trade: close the running bucket if the window changed, then add the trade. */
  method Feed(ghost seen: seq<Trade>, item: Trade, width: int, rows: seq<BucketRow>, state: Option<Bucket>,
              ghost finished: seq<Bucket>)
      returns (rows': seq<BucketRow>, state': Option<Bucket>, ghost finished': seq<Bucket>)
    requires width > 0 && Tracks(seen, width, finished, state, rows)
    ensures Tracks(seen + [item], width, finished', state', rows')
  {
    rows', state', finished' := rows, state, finished;
    assert (seen + [item])[..|seen|] == seen;
    var slot := Slot(item.time, width);
    if state.Some? && slot != state.value.slot {
      PendingFinishable(seen, width, finished, state.value);
      OnePassFinishable(seen, width);
      rows', finished', state' := rows + [Finish(state.value, width)], finished + [state.value], None;
    }
    state' := Some(Add(if state'.None? then Opened(slot, item) else state'.value, item));
  }

  lemma Flushed(trades: seq<Trade>, width: int, finished: seq<Bucket>, state: Option<Bucket>, rows: seq<BucketRow>)
    requires width > 0 && Tracks(trades, width, finished, state, rows)
    ensures state.None? ==> rows == PublishedRows(trades, width)
    ensures state.Some? ==>
              && state.value.sizes != [] && state.value.count == |state.value.sizes|
              && rows + [Finish(state.value, width)] == PublishedRows(trades, width)
  {
    if state.Some? {
      PendingFinishable(trades, width, finished, state.value);
    } else {
      assert OnePass(trades, width) == finished;
    }
  }

  /** The traversal with its mutable state: finished rows, the running bucket and the total. */
  method Traverse(trades: seq<Trade>, width: int, day: int)
      returns (fault: Option<BuildError>, rows: seq<BucketRow>, total: nat)
    requires width > 0
    ensures fault == FirstFault(trades, day, |trades|)
    ensures fault.None? ==> rows == PublishedRows(trades, width) && total == |trades|
  {
    var state: Option<Bucket> := None;
    rows, total := [], 0;
    ghost var seen: seq<Trade>, finished: seq<Bucket> := [], [];
    for i := 0 to |trades|
      invariant total == i && FirstFault(trades, day, i).None?
      invariant seen == trades[..i] && Tracks(seen, width, finished, state, rows)
    {
      fault := if i > 0 && !KeyLess(trades[i - 1], trades[i]) then Some(NotInTotalOrder)
               else if !trades[i].descriptorOk || trades[i].time / DAY_US != day then Some(MixedSource)
               else if trades[i].side == UnknownSide then Some(UnknownTakerSide)
               else None;
      if fault.Some? {
        FaultStops(trades, day, i);
        return;
      }
      assert trades[..i + 1] == trades[..i] + [trades[i]];
      rows, state, finished := Feed(seen, trades[i], width, rows, state, finished);
      seen := seen + [trades[i]];
      total := total + 1;
    }
    fault := None;
    assert seen == trades;
    Flushed(trades, width, finished, state, rows);
    if state.Some? {
      rows := rows + [Finish(state.value, width)];
    }
  }

  method BuildBuckets(trades: seq<Trade>, seconds: int, day: int, event: SourceEvent)
      returns (r: Result<seq<BucketRow>, BuildError>)
    ensures r == BuildSpec(trades, seconds, day, event)
  {
    if seconds != 1 && seconds != 5 && seconds != 60 {
      return Err(UnsupportedSeconds);
    }
    var fault, rows, total := Traverse(trades, seconds * SECOND_US, day);
    if fault.Some? {
      return Err(fault.value);
    }
    if total != event.rowCount {
      return Err(Truncated);
    }
    if trades == [] || trades[0].time != event.coverageStart || trades[|trades| - 1].time != event.coverageEnd {
      return Err(CoverageMismatch);
    }
    return Ok(rows);
  }

  lemma {:induction false} FaultPersists(trades: seq<Trade>, day: int, i: nat, n: nat)
    requires i <= n <= |trades| && FirstFault(trades, day, i).Some?
    ensures FirstFault(trades, day, n) == FirstFault(trades, day, i)
  {
    if i < n {
      FaultPersists(trades, day, i, n - 1);
    }
  }

  lemma FaultStops(trades: seq<Trade>, day: int, i: nat)
    requires i < |trades| && FirstFault(trades, day, i).None? && Fault(trades, i, day).Some?
    ensures FirstFault(trades, day, |trades|) == Fault(trades, i, day)
  {
    FaultPersists(trades, day, i + 1, |trades|);
  }
}
