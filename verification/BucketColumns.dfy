/** Every column of a published bucket row, in terms of the trades of its window. */
module BucketColumns {
  import opened Common
  import Strings
  import opened Arithmetic
  import opened TradeBuckets
  import opened TradeRollup
  import opened BucketBuilder

  /** The trades with start <= time < end, in order. */
  function Between(trades: seq<Trade>, start: int, end: int): seq<Trade> {
    if trades == [] then []
    else
      var t := trades[|trades| - 1];
      Between(trades[..|trades| - 1], start, end) + if start <= t.time < end then [t] else []
  }

  function OfSide(g: seq<Trade>, side: Side): seq<Trade> {
    if g == [] then [] else OfSide(g[..|g| - 1], side) + if g[|g| - 1].side == side then [g[|g| - 1]] else []
  }

  function Quantities(g: seq<Trade>): seq<int> {
    seq(|g|, i requires 0 <= i < |g| => g[i].quantity)
  }

  function Quotes(g: seq<Trade>): seq<int> {
    seq(|g|, i requires 0 <= i < |g| => g[i].quote)
  }

  function Total(s: seq<int>): int {
    if s == [] then 0 else Total(s[..|s| - 1]) + s[|s| - 1]
  }

  function Base(g: seq<Trade>, side: Side): int {
    Total(Quantities(OfSide(g, side)))
  }

  function Quote(g: seq<Trade>, side: Side): int {
    Total(Quotes(OfSide(g, side)))
  }

  /** The middle of the sizes in ascending order, or the mean of the two middle ones rounded half to even. */
  ghost predicate IsMedian(m: int, sizes: seq<int>) {
    forall s :: Ordered(s) && multiset(s) == multiset(sizes) && |s| == |sizes| > 0 ==>
      if |s| % 2 == 1 then m == s[|s| / 2] else IsRoundTiesToEven(s[|s| / 2 - 1] + s[|s| / 2], 2, m)
  }

  predicate Ordered(s: seq<int>) {
    forall i, j :: 0 <= i < j < |s| ==> s[i] <= s[j]
  }

  predicate Counts(r: BucketRow, g: seq<Trade>) {
    r.tradeCount == |g| && r.buyCount == |OfSide(g, Buy)| && r.sellCount == |OfSide(g, Sell)|
  }

  predicate Volumes(r: BucketRow, g: seq<Trade>) {
    && r.buyBase == Base(g, Buy) && r.sellBase == Base(g, Sell)
    && r.baseVolume == Total(Quantities(g)) && r.baseDelta == Base(g, Buy) - Base(g, Sell)
    && r.buyQuote == Quote(g, Buy) && r.sellQuote == Quote(g, Sell)
    && r.quoteVolume == Total(Quotes(g)) && r.quoteDelta == Quote(g, Buy) - Quote(g, Sell)
  }

  ghost predicate Prices(r: BucketRow, g: seq<Trade>) {
    && g != [] && r.open == g[0].price && r.close == g[|g| - 1].price
    && (forall t :: t in g ==> r.low <= t.price <= r.high)
    && (exists t :: t in g && t.price == r.low) && (exists t :: t in g && t.price == r.high)
  }

  ghost predicate Sizes(r: BucketRow, g: seq<Trade>) {
    && g != [] && IsRoundTiesToEven(Total(Quantities(g)), |g|, r.avgSize)
    && IsMedian(r.medianSize, Quantities(g))
    && (forall t :: t in g ==> t.quantity <= r.maxSize) && (exists t :: t in g && t.quantity == r.maxSize)
  }

  // ---------------------------------------------------------------- windows

  lemma {:induction false} BetweenIsInSlot(trades: seq<Trade>, width: int, slot: int)
    requires width > 0
    ensures Between(trades, slot * width, slot * width + width) == InSlot(trades, width, slot)
  {
    if trades != [] {
      BetweenIsInSlot(trades[..|trades| - 1], width, slot);
      DivWindow(trades[|trades| - 1].time, width, slot);
    }
  }

  // ---------------------------------------------------------------- sums

  lemma TotalAppend(s: seq<int>, x: int)
    ensures Total(s + [x]) == Total(s) + x
  {
    assert (s + [x])[..|s|] == s;
  }

  lemma SidesAppend(g: seq<Trade>, t: Trade, side: Side)
    ensures OfSide(g + [t], side) == if t.side == side then OfSide(g, side) + [t] else OfSide(g, side)
  {
    assert (g + [t])[..|g|] == g;
  }

  lemma ColumnsAppend(g: seq<Trade>, t: Trade)
    ensures Quantities(g + [t]) == Quantities(g) + [t.quantity] && Quotes(g + [t]) == Quotes(g) + [t.quote]
  {
  }

  lemma SideTotalsAppend(g: seq<Trade>, t: Trade, side: Side)
    ensures Base(g + [t], side) == Base(g, side) + if t.side == side then t.quantity else 0
    ensures Quote(g + [t], side) == Quote(g, side) + if t.side == side then t.quote else 0
    ensures |OfSide(g + [t], side)| == |OfSide(g, side)| + if t.side == side then 1 else 0
  {
    SidesAppend(g, t, side);
    ColumnsAppend(OfSide(g, side), t);
    TotalAppend(Quantities(OfSide(g, side)), t.quantity);
    TotalAppend(Quotes(OfSide(g, side)), t.quote);
  }

  lemma {:induction false} SideColumns(g: seq<Trade>)
    ensures SumOf(g, BuyTrades) == |OfSide(g, Buy)| && SumOf(g, SellTrades) == |OfSide(g, Sell)|
    ensures SumOf(g, BuyBase) == Base(g, Buy) && SumOf(g, SellBase) == Base(g, Sell)
    ensures SumOf(g, BuyQuote) == Quote(g, Buy) && SumOf(g, SellQuote) == Quote(g, Sell)
  {
    if g != [] {
      var prefix, t := g[..|g| - 1], g[|g| - 1];
      assert g == prefix + [t];
      SideColumns(prefix);
      SideTotalsAppend(prefix, t, Buy);
      SideTotalsAppend(prefix, t, Sell);
    }
  }

  lemma {:induction false} SidesAddUp(g: seq<Trade>)
    requires forall t :: t in g ==> t.side != UnknownSide
    ensures Base(g, Buy) + Base(g, Sell) == Total(Quantities(g))
    ensures Quote(g, Buy) + Quote(g, Sell) == Total(Quotes(g))
  {
    if g != [] {
      var prefix, t := g[..|g| - 1], g[|g| - 1];
      assert g == prefix + [t] && t in g;
      SidesAddUp(prefix);
      SideTotalsAppend(prefix, t, Buy);
      SideTotalsAppend(prefix, t, Sell);
      ColumnsAppend(prefix, t);
      TotalAppend(Quantities(prefix), t.quantity);
      TotalAppend(Quotes(prefix), t.quote);
    }
  }

  lemma {:induction false} SumIsTotal(s: seq<int>)
    ensures Sum(s) == Total(s)
  {
    if s != [] {
      SumIsTotal(s[..|s| - 1]);
    }
  }

  // ---------------------------------------------------------------- order

  lemma TailMultiset(s: seq<int>)
    requires s != []
    ensures multiset(s[1..]) == multiset(s) - multiset{s[0]} && |s| == |multiset(s)|
  {
    assert s == [s[0]] + s[1..];
  }

  lemma {:induction false} OrderedUnique(a: seq<int>, b: seq<int>)
    requires Ordered(a) && Ordered(b) && multiset(a) == multiset(b)
    ensures a == b
  {
    assert |a| == |multiset(a)| && |b| == |multiset(b)|;
    if a != [] {
      FirstIsLeast(a, b);
      FirstIsLeast(b, a);
      TailMultiset(a);
      TailMultiset(b);
      OrderedUnique(a[1..], b[1..]);
      assert a == [a[0]] + a[1..];
    }
  }

  lemma FirstIsLeast(a: seq<int>, b: seq<int>)
    requires Ordered(a) && Ordered(b) && multiset(a) == multiset(b) && a != [] && b != []
    ensures a[0] <= b[0]
  {
    assert b[0] in multiset(a);
    var i :| 0 <= i < |a| && a[i] == b[0];
  }

  lemma MedianExactly(sizes: seq<int>)
    requires sizes != []
    ensures IsMedian(Median(sizes), sizes)
  {
    SortSorts(sizes);
    SortLength(sizes);
    forall s | Ordered(s) && multiset(s) == multiset(sizes) && |s| == |sizes| > 0
      ensures if |s| % 2 == 1 then Median(sizes) == s[|s| / 2]
              else IsRoundTiesToEven(s[|s| / 2 - 1] + s[|s| / 2], 2, Median(sizes))
    {
      OrderedUnique(s, SortInts(sizes));
      if |s| % 2 == 0 {
        RoundHalfEvenExact(s[|s| / 2 - 1] + s[|s| / 2], 2, Median(sizes));
      }
    }
  }

  // ---------------------------------------------------------------- rows

  lemma FinishedVolumes(b: Bucket, g: seq<Trade>, width: int)
    requires Summarises(b, g) && b.sizes != [] && b.count == |b.sizes| && forall t :: t in g ==> t.side != UnknownSide
    ensures Counts(Finish(b, width), g) && Volumes(Finish(b, width), g)
  {
    BucketSums(b, g);
    SidesAddUp(g);
  }

  /** The running bucket in terms of its trades. */
  lemma BucketSums(b: Bucket, g: seq<Trade>)
    requires Summarises(b, g)
    ensures b.count == |g| && b.buyCount == |OfSide(g, Buy)| && b.sellCount == |OfSide(g, Sell)|
    ensures b.buyBase == Base(g, Buy) && b.sellBase == Base(g, Sell)
    ensures b.buyQuote == Quote(g, Buy) && b.sellQuote == Quote(g, Sell)
  {
    SideColumns(g);
    SumOfTrades(g);
    assert Cell(b, Trades) == SumOf(g, Trades);
    assert Cell(b, BuyTrades) == SumOf(g, BuyTrades) && Cell(b, SellTrades) == SumOf(g, SellTrades);
    assert Cell(b, BuyBase) == SumOf(g, BuyBase) && Cell(b, SellBase) == SumOf(g, SellBase);
    assert Cell(b, BuyQuote) == SumOf(g, BuyQuote) && Cell(b, SellQuote) == SumOf(g, SellQuote);
  }

  lemma FinishedSizes(b: Bucket, g: seq<Trade>, width: int)
    requires Summarises(b, g) && b.sizes != [] && b.count == |b.sizes|
    ensures Sizes(Finish(b, width), g)
  {
    assert b.sizes == Quantities(g);
    SumIsTotal(b.sizes);
    RoundHalfEvenExact(Sum(b.sizes), b.count, RoundHalfEven(Sum(b.sizes), b.count));
    MedianExactly(b.sizes);
    GreatestSize(g);
  }

  lemma GreatestSize(g: seq<Trade>)
    requires g != []
    ensures forall t :: t in g ==> t.quantity <= Maximum(Quantities(g))
    ensures exists t :: t in g && t.quantity == Maximum(Quantities(g))
  {
    MaximumIsGreatest(Quantities(g));
    forall t | t in g
      ensures t.quantity <= Maximum(Quantities(g))
    {
      var i :| 0 <= i < |g| && g[i] == t;
      assert Quantities(g)[i] == t.quantity;
    }
    var i :| 0 <= i < |g| && Quantities(g)[i] == Maximum(Quantities(g));
    assert g[i] in g;
  }

  lemma FinishedPrices(b: Bucket, g: seq<Trade>, width: int)
    requires Summarises(b, g) && b.sizes != [] && b.count == |b.sizes|
    ensures Prices(Finish(b, width), g)
  {
  }

  predicate Sided(trades: seq<Trade>) {
    forall t :: t in trades ==> t.side != UnknownSide
  }

  ghost predicate Describes(r: BucketRow, g: seq<Trade>) {
    Counts(r, g) && Prices(r, g) && Volumes(r, g) && Sizes(r, g)
  }

  lemma FinishedColumns(b: Bucket, g: seq<Trade>, width: int)
    requires Summarises(b, g) && b.sizes != [] && b.count == |b.sizes| && Sided(g)
    ensures Describes(Finish(b, width), g)
  {
    FinishedVolumes(b, g, width);
    FinishedPrices(b, g, width);
    FinishedSizes(b, g, width);
  }

  lemma SlotColumns(trades: seq<Trade>, width: int, i: nat)
    requires width > 0 && TimeOrdered(trades) && Sided(trades) && i < |PublishedRows(trades, width)|
    ensures i < |OnePass(trades, width)|
    ensures Describes(PublishedRows(trades, width)[i], InSlot(trades, width, OnePass(trades, width)[i].slot))
  {
    OnePassIsGroupBy(trades, width);
    OnePassFinishable(trades, width);
    var b := OnePass(trades, width)[i];
    InSlotMembers(trades, width, b.slot);
    FinishedColumns(b, InSlot(trades, width, b.slot), width);
  }

  lemma RowColumns(trades: seq<Trade>, width: int, i: nat)
    requires width > 0 && TimeOrdered(trades) && Sided(trades) && i < |PublishedRows(trades, width)|
    ensures var r := PublishedRows(trades, width)[i];
            r.start % width == 0 && r.end == r.start + width && Describes(r, Between(trades, r.start, r.end))
  {
    SlotColumns(trades, width, i);
    RowWindow(trades, width, i);
  }

  lemma WindowBounds(trades: seq<Trade>, width: int, slot: int, start: int, end: int)
    requires width > 0 && start == slot * width && end == slot * width + width
    ensures start % width == 0 && end == start + width && Between(trades, start, end) == InSlot(trades, width, slot)
  {
    BetweenIsInSlot(trades, width, slot);
    MultipleOfWidth(slot, width);
  }

  lemma RowWindow(trades: seq<Trade>, width: int, i: nat)
    requires width > 0 && i < |PublishedRows(trades, width)|
    ensures i < |OnePass(trades, width)|
    ensures var r := PublishedRows(trades, width)[i];
            && r.start % width == 0 && r.end == r.start + width
            && Between(trades, r.start, r.end) == InSlot(trades, width, OnePass(trades, width)[i].slot)
  {
    PublishedSlot(trades, width, i);
    WindowBounds(trades, width, OnePass(trades, width)[i].slot,
                 PublishedRows(trades, width)[i].start, PublishedRows(trades, width)[i].end);
  }

  lemma AcceptedIsSided(trades: seq<Trade>, seconds: int, day: int, event: SourceEvent)
    requires BuildSpec(trades, seconds, day, event).Ok?
    ensures Sided(trades) && TimeOrdered(trades) && seconds in {1, 5, 60}
    ensures BuildSpec(trades, seconds, day, event).value == PublishedRows(trades, seconds * 1_000_000)
  {
    AcceptsExactly(trades, seconds, day, event);
    AcceptableIsOrdered(trades, seconds, day, event);
  }

  /** Main result: every column of a published row, from the trades of the source that fall in its window. */
  lemma ColumnsExactly(trades: seq<Trade>, seconds: int, day: int, event: SourceEvent, i: nat)
    requires BuildSpec(trades, seconds, day, event).Ok? && i < |BuildSpec(trades, seconds, day, event).value|
    ensures seconds in {1, 5, 60}
    ensures var r := BuildSpec(trades, seconds, day, event).value[i];
            var g := Between(trades, r.start, r.end);
            && r.start % (seconds * 1_000_000) == 0 && r.end == r.start + seconds * 1_000_000
            && Counts(r, g) && Prices(r, g) && Volumes(r, g) && Sizes(r, g)
  {
    AcceptedIsSided(trades, seconds, day, event);
    RowColumns(trades, seconds * 1_000_000, i);
  }

  /** And no trade of the source is left out. */
  lemma EveryTradePublished(trades: seq<Trade>, seconds: int, day: int, event: SourceEvent, t: Trade) returns (i: nat)
    requires BuildSpec(trades, seconds, day, event).Ok? && t in trades
    ensures var rows := BuildSpec(trades, seconds, day, event).value;
            && i < |rows| && rows[i].start <= t.time < rows[i].end
            && forall k :: 0 <= k < |rows| && rows[k].start <= t.time < rows[k].end ==> k == i
  {
    AcceptsExactly(trades, seconds, day, event);
    AcceptableIsOrdered(trades, seconds, day, event);
    var width := seconds * 1_000_000;
    i := TradeInExactlyOneRow(trades, width, t);
    forall k | 0 <= k < |PublishedRows(trades, width)|
      ensures PublishedRows(trades, width)[k].start == OnePass(trades, width)[k].slot * width
      ensures PublishedRows(trades, width)[k].end == OnePass(trades, width)[k].slot * width + width
    {
      PublishedSlot(trades, width, k);
    }
  }

  /** The order an accepted source is in: by time, then source ordinal, then trade id, without a repetition. */
  lemma AcceptedOrder(trades: seq<Trade>, seconds: int, day: int, event: SourceEvent, i: nat)
    requires BuildSpec(trades, seconds, day, event).Ok? && 0 < i < |trades|
    ensures var a, b := trades[i - 1], trades[i];
            || a.time < b.time
            || (a.time == b.time && a.ordinal < b.ordinal)
            || (a.time == b.time && a.ordinal == b.ordinal && Strings.StringLess(a.tradeId, b.tradeId))
    ensures trades[i].time / 86_400_000_000 == day == trades[i - 1].time / 86_400_000_000
  {
    AcceptsExactly(trades, seconds, day, event);
    assert KeyLess(trades[i - 1], trades[i]);
  }

  /** A trade the traversal stops at: out of order, of another descriptor or day, or without a side. */
  predicate Faulty(trades: seq<Trade>, i: nat, day: int)
    requires i < |trades|
  {
    || (i > 0 && !KeyLess(trades[i - 1], trades[i]))
    || !trades[i].descriptorOk || trades[i].time / 86_400_000_000 != day || trades[i].side == UnknownSide
  }

  lemma FaultyExactly(trades: seq<Trade>, i: nat, day: int)
    requires i < |trades|
    ensures Faulty(trades, i, day) <==> Fault(trades, i, day).Some?
  {
  }

  /** Main result: what is raised, in the order of the source: the width, the first faulty trade,
      the count, the span. */
  lemma ErrorsExactly(trades: seq<Trade>, seconds: int, day: int, event: SourceEvent)
    ensures var r := BuildSpec(trades, seconds, day, event);
            && (r == Err(UnsupportedSeconds) <==> seconds !in {1, 5, 60})
            && (r.Err? && r.error in {NotInTotalOrder, MixedSource, UnknownTakerSide} <==>
                  seconds in {1, 5, 60} && exists i :: 0 <= i < |trades| && Faulty(trades, i, day))
            && (r == Err(Truncated) ==> |trades| != event.rowCount)
            && (r == Err(CoverageMismatch) ==> |trades| == event.rowCount)
  {
    NoFaultExactly(trades, day, |trades|);
    FaultKinds(trades, day, |trades|);
    forall i | 0 <= i < |trades|
      ensures Faulty(trades, i, day) <==> Fault(trades, i, day).Some?
    {
      FaultyExactly(trades, i, day);
    }
  }

  lemma {:induction false} FaultKinds(trades: seq<Trade>, day: int, n: nat)
    requires n <= |trades|
    ensures FirstFault(trades, day, n).Some? ==>
              FirstFault(trades, day, n).value in {NotInTotalOrder, MixedSource, UnknownTakerSide}
  {
    if n > 0 {
      FaultKinds(trades, day, n - 1);
    }
  }
}
