/**
 The streaming aggregation of trade_buckets.py.  Times are microseconds since the epoch; prices and sizes are
 integers in units of 10^-18, the scale of the published columns.
 */
module TradeBuckets {
  import opened Common
  import opened Arithmetic

  datatype Side = Buy | Sell | UnknownSide

  /** `descriptorOk`: instrument, dataset, market and contract columns are those the caller asked for. */
  datatype Trade = Trade(time: int, ordinal: int, tradeId: string, price: int, quantity: int, quote: int,
                         side: Side, descriptorOk: bool)

  const SECOND_US := 1_000_000
  const DAY_US := 86_400_000_000

  /** The window of `width` microseconds a time falls in; the window starts at slot * width. */
  function Slot(time: int, width: int): int
    requires width > 0
  {
    time / width
  }

  /** The running `state` dictionary of one bucket. */
  datatype Bucket = Bucket(slot: int, count: nat, buyCount: nat, sellCount: nat, open: int, high: int, low: int,
                           close: int, buyBase: int, sellBase: int, buyQuote: int, sellQuote: int, sizes: seq<int>)

  function Max(a: int, b: int): int {
    if b > a then b else a
  }

  function Min(a: int, b: int): int {
    if b < a then b else a
  }

  function Opened(slot: int, t: Trade): Bucket {
    Bucket(slot, 0, 0, 0, t.price, t.price, t.price, t.price, 0, 0, 0, 0, [])
  }

  function Add(b: Bucket, t: Trade): Bucket {
    var buy, sell := t.side == Buy, t.side == Sell;
    Bucket(b.slot, b.count + 1, b.buyCount + (if buy then 1 else 0), b.sellCount + (if sell then 1 else 0),
           b.open, Max(b.high, t.price), Min(b.low, t.price), t.price,
           b.buyBase + (if buy then t.quantity else 0), b.sellBase + (if sell then t.quantity else 0),
           b.buyQuote + (if buy then t.quote else 0), b.sellQuote + (if sell then t.quote else 0),
           b.sizes + [t.quantity])
  }

  /** The one-pass aggregation: finished buckets followed by the running one. */
  function OnePass(trades: seq<Trade>, width: int): seq<Bucket>
    requires width > 0
  {
    if trades == [] then []
    else Fed(OnePass(trades[..|trades| - 1], width), trades[|trades| - 1], width)
  }

  function Fed(buckets: seq<Bucket>, t: Trade, width: int): seq<Bucket>
    requires width > 0
  {
    var slot := Slot(t.time, width);
    if buckets != [] && buckets[|buckets| - 1].slot == slot then
      buckets[..|buckets| - 1] + [Add(buckets[|buckets| - 1], t)]
    else buckets + [Add(Opened(slot, t), t)]
  }

  // ---------------------------------------------------------------- the declarative group-by

  predicate TimeOrdered(trades: seq<Trade>) {
    forall i, j :: 0 <= i < j < |trades| ==> trades[i].time <= trades[j].time
  }

  /** The trades of one window, in order. */
  function InSlot(trades: seq<Trade>, width: int, slot: int): seq<Trade>
    requires width > 0
  {
    if trades == [] then []
    else
      var t := trades[|trades| - 1];
      InSlot(trades[..|trades| - 1], width, slot) + if Slot(t.time, width) == slot then [t] else []
  }

  /** The additive columns of a row. */
  datatype Column = Trades | BuyTrades | SellTrades | BuyBase | SellBase | BuyQuote | SellQuote

  /** What one trade contributes to a column. */
  function Part(t: Trade, c: Column): int {
    match c
    case Trades => 1
    case BuyTrades => if t.side == Buy then 1 else 0
    case SellTrades => if t.side == Sell then 1 else 0
    case BuyBase => if t.side == Buy then t.quantity else 0
    case SellBase => if t.side == Sell then t.quantity else 0
    case BuyQuote => if t.side == Buy then t.quote else 0
    case SellQuote => if t.side == Sell then t.quote else 0
  }

  function Cell(b: Bucket, c: Column): int {
    match c
    case Trades => b.count
    case BuyTrades => b.buyCount
    case SellTrades => b.sellCount
    case BuyBase => b.buyBase
    case SellBase => b.sellBase
    case BuyQuote => b.buyQuote
    case SellQuote => b.sellQuote
  }

  function SumOf(trades: seq<Trade>, c: Column): int {
    if trades == [] then 0 else SumOf(trades[..|trades| - 1], c) + Part(trades[|trades| - 1], c)
  }

  /** `b` summarises the trades `g`: first and last price, extremes that occur, counts and sums by side, sizes. */
  ghost predicate Summarises(b: Bucket, g: seq<Trade>) {
    && g != []
    && b.open == g[0].price && b.close == g[|g| - 1].price
    && (forall t :: t in g ==> b.low <= t.price <= b.high)
    && (exists t :: t in g && t.price == b.low)
    && (exists t :: t in g && t.price == b.high)
    && (forall c :: Cell(b, c) == SumOf(g, c))
    && b.sizes == seq(|g|, i requires 0 <= i < |g| => g[i].quantity)
  }

  lemma SumAppend(g: seq<Trade>, t: Trade)
    ensures forall c :: SumOf(g + [t], c) == SumOf(g, c) + Part(t, c)
  {
    assert (g + [t])[..|g|] == g;
  }

  lemma {:induction false} SumOfTrades(g: seq<Trade>)
    ensures SumOf(g, Trades) == |g|
  {
    if g != [] {
      SumOfTrades(g[..|g| - 1]);
    }
  }

  lemma AddSummarises(b: Bucket, g: seq<Trade>, t: Trade)
    requires Summarises(b, g)
    ensures Summarises(Add(b, t), g + [t])
  {
    SumAppend(g, t);
    forall c
      ensures Cell(Add(b, t), c) == SumOf(g + [t], c)
    {
      assert Cell(Add(b, t), c) == Cell(b, c) + Part(t, c);
    }
    var h := g + [t];
    assert t in h;
    var lo :| lo in g && lo.price == b.low;
    var hi :| hi in g && hi.price == b.high;
    assert lo in h && hi in h;
  }

  lemma FirstSummarises(slot: int, t: Trade)
    ensures Summarises(Add(Opened(slot, t), t), [t])
  {
    assert [] + [t] == [t];
    SumAppend([], t);
    forall c
      ensures Cell(Add(Opened(slot, t), t), c) == SumOf([t], c)
    {
      assert SumOf([], c) == 0;
    }
    assert t in [t];
  }

  predicate Grouped(buckets: seq<Bucket>) {
    forall i, j :: 0 <= i < j < |buckets| ==> buckets[i].slot < buckets[j].slot
  }

  ghost predicate RowsSummarise(buckets: seq<Bucket>, trades: seq<Trade>, width: int)
    requires width > 0
  {
    forall i :: 0 <= i < |buckets| ==> Summarises(buckets[i], InSlot(trades, width, buckets[i].slot))
  }

  predicate HasRow(buckets: seq<Bucket>, slot: int) {
    exists i :: 0 <= i < |buckets| && buckets[i].slot == slot
  }

  /** The specification of the aggregation: one row per occupied window, in order, each summarising its trades. */
  ghost predicate GroupBy(trades: seq<Trade>, width: int, buckets: seq<Bucket>)
    requires width > 0
  {
    && Grouped(buckets)
    && RowsSummarise(buckets, trades, width)
    && (forall t :: t in trades ==> HasRow(buckets, Slot(t.time, width)))
  }

  lemma {:induction false} InSlotMembers(trades: seq<Trade>, width: int, slot: int)
    requires width > 0
    ensures forall t :: t in InSlot(trades, width, slot) <==> t in trades && Slot(t.time, width) == slot
  {
    if trades != [] {
      InSlotMembers(trades[..|trades| - 1], width, slot);
      assert trades == trades[..|trades| - 1] + [trades[|trades| - 1]];
    }
  }

  lemma NoneYet(trades: seq<Trade>, width: int, buckets: seq<Bucket>, slot: int)
    requires width > 0 && GroupBy(trades, width, buckets) && !HasRow(buckets, slot)
    ensures InSlot(trades, width, slot) == []
  {
    var g := InSlot(trades, width, slot);
    assert g != [] ==> g[0] in g;
    InSlotMembers(trades, width, slot);
  }

  lemma FedSummarises(trades: seq<Trade>, t: Trade, width: int, buckets: seq<Bucket>, i: nat)
    requires width > 0 && GroupBy(trades, width, buckets) && i < |Fed(buckets, t, width)|
    requires buckets != [] ==> buckets[|buckets| - 1].slot <= Slot(t.time, width)
    ensures Summarises(Fed(buckets, t, width)[i], InSlot(trades + [t], width, Fed(buckets, t, width)[i].slot))
  {
    var b := Fed(buckets, t, width)[i];
    var slot := Slot(t.time, width);
    var g := InSlot(trades, width, b.slot);
    assert (trades + [t])[..|trades|] == trades;
    if b.slot != slot {
      assert g + [] == g;
      assert b == buckets[i];
    } else if i < |buckets| {
      assert i == |buckets| - 1;
      AddSummarises(buckets[i], g, t);
    } else {
      NoneYet(trades, width, buckets, slot);
      assert [] + [t] == [t];
      FirstSummarises(slot, t);
    }
  }

  lemma FedCovers(buckets: seq<Bucket>, t: Trade, width: int, slot: int)
    requires width > 0 && (HasRow(buckets, slot) || slot == Slot(t.time, width))
    ensures HasRow(Fed(buckets, t, width), slot)
  {
    var fed := Fed(buckets, t, width);
    if HasRow(buckets, slot) {
      var i :| 0 <= i < |buckets| && buckets[i].slot == slot;
      assert fed[i].slot == slot;
    } else {
      assert fed[|fed| - 1].slot == slot;
    }
  }

  lemma FedRowsSummarise(trades: seq<Trade>, t: Trade, width: int, buckets: seq<Bucket>)
    requires width > 0 && GroupBy(trades, width, buckets)
    requires buckets != [] ==> buckets[|buckets| - 1].slot <= Slot(t.time, width)
    ensures RowsSummarise(Fed(buckets, t, width), trades + [t], width)
  {
    forall i | 0 <= i < |Fed(buckets, t, width)|
      ensures Summarises(Fed(buckets, t, width)[i], InSlot(trades + [t], width, Fed(buckets, t, width)[i].slot))
    {
      FedSummarises(trades, t, width, buckets, i);
    }
  }

  lemma FedGrouped(buckets: seq<Bucket>, t: Trade, width: int)
    requires width > 0 && Grouped(buckets)
    requires buckets != [] ==> buckets[|buckets| - 1].slot <= Slot(t.time, width)
    ensures Grouped(Fed(buckets, t, width))
  {
  }

  lemma FedGroupBy(trades: seq<Trade>, t: Trade, width: int, buckets: seq<Bucket>)
    requires width > 0 && GroupBy(trades, width, buckets)
    requires buckets != [] ==> buckets[|buckets| - 1].slot <= Slot(t.time, width)
    ensures GroupBy(trades + [t], width, Fed(buckets, t, width))
  {
    FedRowsSummarise(trades, t, width, buckets);
    FedGrouped(buckets, t, width);
    forall u | u in trades + [t]
      ensures HasRow(Fed(buckets, t, width), Slot(u.time, width))
    {
      assert u in trades || u == t;
      FedCovers(buckets, t, width, Slot(u.time, width));
    }
  }

  /** Main result: for time-ordered trades the one-pass aggregation is the group-by. */
  lemma {:induction false} OnePassIsGroupBy(trades: seq<Trade>, width: int)
    requires width > 0 && TimeOrdered(trades)
    ensures GroupBy(trades, width, OnePass(trades, width))
    ensures if trades == [] then OnePass(trades, width) == []
            else OnePass(trades, width) != []
                 && OnePass(trades, width)[|OnePass(trades, width)| - 1].slot == Slot(trades[|trades| - 1].time, width)
  {
    if trades != [] {
      var prefix, t := trades[..|trades| - 1], trades[|trades| - 1];
      assert trades == prefix + [t];
      OnePassIsGroupBy(prefix, width);
      if prefix != [] {
        DivMonotone(prefix[|prefix| - 1].time, t.time, width);
      }
      FedGroupBy(prefix, t, width, OnePass(prefix, width));
    }
  }

  // ---------------------------------------------------------------- what a group-by gives a reader

  predicate Contains(b: Bucket, width: int, time: int) {
    b.slot * width <= time < b.slot * width + width
  }

  /** Every trade lies in the window of exactly one row. */
  lemma TradeInExactlyOneRow(trades: seq<Trade>, width: int, t: Trade) returns (k: nat)
    requires width > 0 && TimeOrdered(trades) && t in trades
    ensures k < |OnePass(trades, width)| && Contains(OnePass(trades, width)[k], width, t.time)
    ensures forall i :: 0 <= i < |OnePass(trades, width)| && Contains(OnePass(trades, width)[i], width, t.time) ==>
        i == k
  {
    OnePassIsGroupBy(trades, width);
    var rows, slot := OnePass(trades, width), Slot(t.time, width);
    assert HasRow(rows, slot);
    k :| 0 <= k < |rows| && rows[k].slot == slot;
    forall i | 0 <= i < |rows|
      ensures Contains(rows[i], width, t.time) <==> rows[i].slot == slot
    {
      DivWindow(t.time, width, rows[i].slot);
    }
  }

  function TotalOf(rows: seq<Bucket>, c: Column): int {
    if rows == [] then 0 else TotalOf(rows[..|rows| - 1], c) + Cell(rows[|rows| - 1], c)
  }

  /** No trade and no volume is lost or counted twice: every additive column adds up to the sum over the trades. */
  lemma {:induction false} ColumnsConserved(trades: seq<Trade>, width: int, c: Column)
    requires width > 0
    ensures TotalOf(OnePass(trades, width), c) == SumOf(trades, c)
  {
    if trades != [] {
      var prefix, t := trades[..|trades| - 1], trades[|trades| - 1];
      ColumnsConserved(prefix, width, c);
      FedTotal(OnePass(prefix, width), t, width, c);
    }
  }

  lemma AddedCell(b: Bucket, t: Trade, slot: int, c: Column)
    ensures Cell(Add(b, t), c) == Cell(b, c) + Part(t, c)
    ensures Cell(Add(Opened(slot, t), t), c) == Part(t, c)
  {
  }

  lemma FedTotal(buckets: seq<Bucket>, t: Trade, width: int, c: Column)
    requires width > 0
    ensures TotalOf(Fed(buckets, t, width), c) == TotalOf(buckets, c) + Part(t, c)
  {
    var slot := Slot(t.time, width);
    if buckets != [] && buckets[|buckets| - 1].slot == slot {
      var done, running := buckets[..|buckets| - 1], buckets[|buckets| - 1];
      AddedCell(running, t, slot, c);
    } else {
      AddedCell(Opened(slot, t), t, slot, c);
    }
  }

  lemma {:induction false} SlotsSpread(rows: seq<Bucket>, k: nat)
    requires Grouped(rows) && k < |rows|
    ensures rows[k].slot >= rows[0].slot + k
  {
    if k > 0 {
      SlotsSpread(rows, k - 1);
    }
  }

  lemma RowInDay(trades: seq<Trade>, width: int, perDay: int, day: int, b: Bucket)
    requires width > 0 && perDay > 0 && width * perDay == DAY_US
    requires Summarises(b, InSlot(trades, width, b.slot)) && forall t :: t in trades ==> t.time / DAY_US == day
    ensures day * perDay <= b.slot < day * perDay + perDay
  {
    var g := InSlot(trades, width, b.slot);
    assert g[0] in g;
    InSlotMembers(trades, width, b.slot);
    DivDiv(g[0].time, width, perDay);
    DivWindow(b.slot, perDay, day);
  }

  lemma RowsInDay(trades: seq<Trade>, width: int, perDay: int, day: int)
    requires width > 0 && perDay > 0 && width * perDay == DAY_US
    requires TimeOrdered(trades) && forall t :: t in trades ==> t.time / DAY_US == day
    ensures var rows := OnePass(trades, width);
            |rows| <= perDay && forall i :: 0 <= i < |rows| ==> day * perDay <= rows[i].slot < day * perDay + perDay
  {
    var rows := OnePass(trades, width);
    OnePassIsGroupBy(trades, width);
    forall i | 0 <= i < |rows|
      ensures day * perDay <= rows[i].slot < day * perDay + perDay
    {
      RowInDay(trades, width, perDay, day, rows[i]);
    }
    if rows != [] {
      SlotsSpread(rows, |rows| - 1);
    }
  }

  /** All rows of one day lie in it, so there are at most 86400 / seconds of them. */
  lemma AtMostOneDayOfRows(trades: seq<Trade>, seconds: int, day: int)
    requires seconds == 1 || seconds == 5 || seconds == 60
    requires TimeOrdered(trades) && forall t :: t in trades ==> t.time / DAY_US == day
    ensures |OnePass(trades, seconds * SECOND_US)| <= 86_400 / seconds
  {
    if seconds == 1 {
      RowsInDay(trades, SECOND_US, 86_400, day);
    } else if seconds == 5 {
      RowsInDay(trades, 5 * SECOND_US, 17_280, day);
    } else {
      RowsInDay(trades, 60 * SECOND_US, 1_440, day);
    }
  }

  /**
   The source computes the bucket from a double: the truncated microsecond count can be one too small, but never
   on a whole second, so the bucket is the one of the exact time.
   */
  lemma FloatTruncationIsHarmless(time: int, error: int, seconds: int)
    requires seconds > 0 && 0 <= error <= 1 && (time % SECOND_US == 0 ==> error == 0)
    ensures Slot(time - error, seconds * SECOND_US) == Slot(time, seconds * SECOND_US)
  {
    DivDiv(time, SECOND_US, seconds);
    DivDiv(time - error, SECOND_US, seconds);
  }
}
