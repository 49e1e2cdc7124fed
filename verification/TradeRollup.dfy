/** The published rows of trade_buckets.py: rounding of averages and medians, and rolling fine rows up. */
module TradeRollup {
  import opened Arithmetic
  import opened TradeBuckets

  // ---------------------------------------------------------------- rounding

  /** n/d rounded to the nearest integer, ties to even: `quantize` with ROUND_HALF_EVEN in units of the quantum. */
  function RoundHalfEven(n: int, d: int): int
    requires d > 0
  {
    var q, r := n / d, n % d;
    if 2 * r < d || (2 * r == d && q % 2 == 0) then q else q + 1
  }

  /** roundTiesToEven, section 4.3.1 of IEEE 754-2008. */
  predicate IsRoundTiesToEven(n: int, d: int, m: int) {
    -d <= 2 * (m * d - n) <= d && (2 * (m * d - n) == d || 2 * (m * d - n) == -d ==> m % 2 == 0)
  }

  /** The result is the nearest integer, with ties to even, and the only such integer. */
  lemma RoundHalfEvenExact(n: int, d: int, m: int)
    requires d > 0
    ensures IsRoundTiesToEven(n, d, m) <==> m == RoundHalfEven(n, d)
  {
    var q, r := n / d, n % d;
    assert n == q * d + r;
    assert (q + 1) * d == q * d + d;
    MulMonotone(m + 1, q, d);
    MulMonotone(q + 2, m, d);
    assert (m + 1) * d == m * d + d && (q + 2) * d == q * d + 2 * d;
  }

  /** A rounded mean lies between the bounds of what was averaged. */
  lemma RoundingKeepsBounds(n: int, d: int, lo: int, hi: int)
    requires d > 0 && lo * d <= n <= hi * d
    ensures lo <= RoundHalfEven(n, d) <= hi
  {
    var m := RoundHalfEven(n, d);
    RoundHalfEvenExact(n, d, m);
    MulMonotone(m + 1, lo, d);
    MulMonotone(hi + 1, m, d);
    assert (m + 1) * d == m * d + d && (hi + 1) * d == hi * d + d;
  }

  function Sum(sizes: seq<int>): int {
    if sizes == [] then 0 else Sum(sizes[..|sizes| - 1]) + sizes[|sizes| - 1]
  }

  function Maximum(sizes: seq<int>): int
    requires sizes != []
  {
    if |sizes| == 1 then sizes[0] else Max(Maximum(sizes[..|sizes| - 1]), sizes[|sizes| - 1])
  }

  function InsertInt(sorted: seq<int>, x: int): seq<int> {
    if sorted == [] || x < sorted[0] then [x] + sorted else [sorted[0]] + InsertInt(sorted[1..], x)
  }

  function SortInts(sizes: seq<int>): seq<int> {
    if sizes == [] then [] else InsertInt(SortInts(sizes[..|sizes| - 1]), sizes[|sizes| - 1])
  }

  /** `statistics.median`, then quantized. */
  function Median(sizes: seq<int>): int
    requires sizes != []
  {
    SortLength(sizes);
    var s, n := SortInts(sizes), |sizes|;
    if n % 2 == 1 then s[n / 2] else RoundHalfEven(s[n / 2 - 1] + s[n / 2], 2)
  }

  lemma {:induction false} InsertLength(sorted: seq<int>, x: int)
    ensures |InsertInt(sorted, x)| == |sorted| + 1
  {
    if sorted != [] && x >= sorted[0] {
      InsertLength(sorted[1..], x);
    }
  }

  lemma {:induction false} SortLength(sizes: seq<int>)
    ensures |SortInts(sizes)| == |sizes|
  {
    if sizes != [] {
      SortLength(sizes[..|sizes| - 1]);
      InsertLength(SortInts(sizes[..|sizes| - 1]), sizes[|sizes| - 1]);
    }
  }

  predicate SortedInts(s: seq<int>) {
    forall i, j :: 0 <= i <= j < |s| ==> s[i] <= s[j]
  }

  lemma ConsSorted(head: int, tail: seq<int>, rest: seq<int>, x: int)
    requires SortedInts(tail) && multiset(tail) == multiset(rest) + multiset{x}
    requires head <= x && forall j :: 0 <= j < |rest| ==> head <= rest[j]
    ensures SortedInts([head] + tail) && multiset([head] + tail) == multiset{head} + multiset(tail)
  {
    forall j | 0 <= j < |tail|
      ensures head <= tail[j]
    {
      assert tail[j] in multiset(tail);
    }
  }

  lemma {:induction false} InsertSorted(sorted: seq<int>, x: int)
    requires SortedInts(sorted)
    ensures SortedInts(InsertInt(sorted, x)) && multiset(InsertInt(sorted, x)) == multiset(sorted) + multiset{x}
  {
    if sorted != [] {
      assert sorted == [sorted[0]] + sorted[1..];
      if x >= sorted[0] {
        InsertSorted(sorted[1..], x);
        ConsSorted(sorted[0], InsertInt(sorted[1..], x), sorted[1..], x);
      }
    }
  }

  lemma {:induction false} SortSorts(sizes: seq<int>)
    ensures SortedInts(SortInts(sizes)) && multiset(SortInts(sizes)) == multiset(sizes)
  {
    if sizes != [] {
      SortSorts(sizes[..|sizes| - 1]);
      InsertSorted(SortInts(sizes[..|sizes| - 1]), sizes[|sizes| - 1]);
      assert sizes == sizes[..|sizes| - 1] + [sizes[|sizes| - 1]];
    }
  }

  /** How many of the sizes lie strictly on one side of `m`. */
  function CountBelow(s: seq<int>, m: int): nat {
    if s == [] then 0 else CountBelow(s[..|s| - 1], m) + if s[|s| - 1] < m then 1 else 0
  }

  function CountAbove(s: seq<int>, m: int): nat {
    if s == [] then 0 else CountAbove(s[..|s| - 1], m) + if s[|s| - 1] > m then 1 else 0
  }

  lemma {:induction false} CountSplit(a: seq<int>, b: seq<int>, m: int)
    ensures CountBelow(a + b, m) == CountBelow(a, m) + CountBelow(b, m)
    ensures CountAbove(a + b, m) == CountAbove(a, m) + CountAbove(b, m)
  {
    if b == [] {
      assert a + b == a;
    } else {
      assert (a + b)[..|a + b| - 1] == a + b[..|b| - 1];
      CountSplit(a, b[..|b| - 1], m);
    }
  }

  lemma {:induction false} CountInsert(s: seq<int>, x: int, m: int)
    ensures CountBelow(InsertInt(s, x), m) == CountBelow(s + [x], m)
    ensures CountAbove(InsertInt(s, x), m) == CountAbove(s + [x], m)
  {
    CountSplit(s, [x], m);
    if s == [] || x < s[0] {
      CountSplit([x], s, m);
    } else {
      CountInsert(s[1..], x, m);
      CountSplit(s[1..], [x], m);
      CountSplit([s[0]], InsertInt(s[1..], x), m);
      CountSplit([s[0]], s[1..], m);
      assert s == [s[0]] + s[1..];
    }
  }

  lemma {:induction false} CountSort(s: seq<int>, m: int)
    ensures CountBelow(SortInts(s), m) == CountBelow(s, m) && CountAbove(SortInts(s), m) == CountAbove(s, m)
  {
    if s != [] {
      var prefix, x := s[..|s| - 1], s[|s| - 1];
      assert s == prefix + [x];
      CountSort(prefix, m);
      CountInsert(SortInts(prefix), x, m);
      CountSplit(SortInts(prefix), [x], m);
      CountSplit(prefix, [x], m);
    }
  }

  lemma {:induction false} CountBounds(s: seq<int>, m: int)
    ensures CountBelow(s, m) <= |s| && CountAbove(s, m) <= |s|
    ensures (forall i :: 0 <= i < |s| ==> s[i] >= m) ==> CountBelow(s, m) == 0
    ensures (forall i :: 0 <= i < |s| ==> s[i] <= m) ==> CountAbove(s, m) == 0
  {
    if s != [] {
      CountBounds(s[..|s| - 1], m);
    }
  }

  lemma SplitAt(s: seq<int>, m: int, k: nat)
    requires k <= |s|
    ensures (forall i :: k <= i < |s| ==> s[i] >= m) ==> CountBelow(s, m) <= k
    ensures (forall i :: 0 <= i < k ==> s[i] <= m) ==> CountAbove(s, m) <= |s| - k
  {
    assert s == s[..k] + s[k..];
    CountSplit(s[..k], s[k..], m);
    CountBounds(s[..k], m);
    CountBounds(s[k..], m);
  }

  /** At most half of the sizes lie strictly below the median and at most half strictly above it. */
  lemma MedianSplits(sizes: seq<int>)
    requires sizes != []
    ensures 2 * CountBelow(sizes, Median(sizes)) <= |sizes| && 2 * CountAbove(sizes, Median(sizes)) <= |sizes|
  {
    var s, n, m := SortInts(sizes), |sizes|, Median(sizes);
    SortLength(sizes);
    SortSorts(sizes);
    CountSort(sizes, m);
    if n % 2 == 0 {
      RoundingKeepsBounds(s[n / 2 - 1] + s[n / 2], 2, s[n / 2 - 1], s[n / 2]);
    }
    SplitAt(s, m, n / 2);
    SplitAt(s, m, (n - 1) / 2 + 1);
  }

  lemma {:induction false} SumBounds(sizes: seq<int>, lo: int, hi: int)
    requires forall i :: 0 <= i < |sizes| ==> lo <= sizes[i] <= hi
    ensures lo * |sizes| <= Sum(sizes) <= hi * |sizes|
  {
    if sizes == [] {
      assert lo * |sizes| == 0 && hi * |sizes| == 0;
    } else {
      SumBounds(sizes[..|sizes| - 1], lo, hi);
      var k := |sizes| - 1;
      assert lo * (k + 1) == lo * k + lo && hi * (k + 1) == hi * k + hi;
    }
  }

  lemma {:induction false} MaximumIsGreatest(sizes: seq<int>)
    requires sizes != []
    ensures Maximum(sizes) in sizes && forall i :: 0 <= i < |sizes| ==> sizes[i] <= Maximum(sizes)
  {
    if |sizes| > 1 {
      MaximumIsGreatest(sizes[..|sizes| - 1]);
    }
  }

  /** The average and the median of a row never exceed its maximum size. */
  lemma SizeColumnsOrdered(sizes: seq<int>)
    requires sizes != []
    ensures RoundHalfEven(Sum(sizes), |sizes|) <= Maximum(sizes) && Median(sizes) <= Maximum(sizes)
  {
    var n, hi := |sizes|, Maximum(sizes);
    MaximumIsGreatest(sizes);
    var s := SortInts(sizes);
    SortLength(sizes);
    SortSorts(sizes);
    assert forall i :: 0 <= i < n ==> s[i] in multiset(s);
    assert forall i :: 0 <= i < n ==> s[i] in sizes;
    if n % 2 == 0 {
      RoundingKeepsBounds(s[n / 2 - 1] + s[n / 2], 2, s[n / 2 - 1], s[n / 2]);
    }
    assert forall i :: 0 <= i < n ==> s[0] <= sizes[i] by {
      forall i | 0 <= i < n
        ensures s[0] <= sizes[i]
      {
        assert sizes[i] in multiset(s);
      }
    }
    SumBounds(sizes, s[0], hi);
    RoundingKeepsBounds(Sum(sizes), n, s[0], hi);
  }

  // ---------------------------------------------------------------- published rows

  datatype BucketRow = BucketRow(
    start: int, end: int, tradeCount: nat, buyCount: nat, sellCount: nat,
    open: int, high: int, low: int, close: int,
    baseVolume: int, buyBase: int, sellBase: int, baseDelta: int,
    quoteVolume: int, buyQuote: int, sellQuote: int, quoteDelta: int,
    avgSize: int, medianSize: int, maxSize: int)

  /** `_finish`. */
  function Finish(b: Bucket, width: int): BucketRow
    requires b.sizes != [] && b.count == |b.sizes|
  {
    BucketRow(b.slot * width, b.slot * width + width, b.count, b.buyCount, b.sellCount, b.open, b.high, b.low, b.close,
              b.buyBase + b.sellBase, b.buyBase, b.sellBase, b.buyBase - b.sellBase,
              b.buyQuote + b.sellQuote, b.buyQuote, b.sellQuote, b.buyQuote - b.sellQuote,
              RoundHalfEven(Sum(b.sizes), b.count), Median(b.sizes), Maximum(b.sizes))
  }

  predicate Finishable(buckets: seq<Bucket>) {
    forall i :: 0 <= i < |buckets| ==> buckets[i].sizes != [] && buckets[i].count == |buckets[i].sizes|
  }

  lemma {:induction false} OnePassFinishable(trades: seq<Trade>, width: int)
    requires width > 0
    ensures Finishable(OnePass(trades, width))
  {
    if trades != [] {
      OnePassFinishable(trades[..|trades| - 1], width);
    }
  }

  function FinishAll(buckets: seq<Bucket>, width: int): seq<BucketRow>
    requires Finishable(buckets)
  {
    seq(|buckets|, i requires 0 <= i < |buckets| => Finish(buckets[i], width))
  }

  /** The rows written for an accepted source. */
  function PublishedRows(trades: seq<Trade>, width: int): seq<BucketRow>
    requires width > 0
  {
    OnePassFinishable(trades, width);
    FinishAll(OnePass(trades, width), width)
  }

  lemma PublishedSlot(trades: seq<Trade>, width: int, i: nat)
    requires width > 0 && i < |PublishedRows(trades, width)|
    ensures i < |OnePass(trades, width)|
    ensures PublishedRows(trades, width)[i].start == OnePass(trades, width)[i].slot * width
    ensures PublishedRows(trades, width)[i].end == OnePass(trades, width)[i].slot * width + width
  {
  }

  lemma SlotsAscend(trades: seq<Trade>, width: int, a: nat, b: nat)
    requires width > 0 && TimeOrdered(trades) && a < b < |OnePass(trades, width)|
    ensures OnePass(trades, width)[a].slot < OnePass(trades, width)[b].slot
  {
    OnePassIsGroupBy(trades, width);
  }

  // ---------------------------------------------------------------- rolling up

  /** The columns of a row that can be combined; the average and the median cannot. */
  datatype Totals = Totals(
    start: int, tradeCount: nat, buyCount: nat, sellCount: nat, open: int, high: int, low: int, close: int,
    baseVolume: int, buyBase: int, sellBase: int, baseDelta: int,
    quoteVolume: int, buyQuote: int, sellQuote: int, quoteDelta: int, maxSize: int)

  function TotalsOf(r: BucketRow): Totals {
    Totals(r.start, r.tradeCount, r.buyCount, r.sellCount, r.open, r.high, r.low, r.close,
           r.baseVolume, r.buyBase, r.sellBase, r.baseDelta, r.quoteVolume, r.buyQuote, r.sellQuote, r.quoteDelta,
           r.maxSize)
  }

  function AllTotals(rows: seq<BucketRow>): seq<Totals> {
    seq(|rows|, i requires 0 <= i < |rows| => TotalsOf(rows[i]))
  }

  /** `a` followed by `b`. */
  function Join(a: Totals, b: Totals): Totals {
    Totals(a.start, a.tradeCount + b.tradeCount, a.buyCount + b.buyCount, a.sellCount + b.sellCount,
           a.open, Max(a.high, b.high), Min(a.low, b.low), b.close,
           a.baseVolume + b.baseVolume, a.buyBase + b.buyBase, a.sellBase + b.sellBase, a.baseDelta + b.baseDelta,
           a.quoteVolume + b.quoteVolume, a.buyQuote + b.buyQuote, a.sellQuote + b.sellQuote,
           a.quoteDelta + b.quoteDelta,
           Max(a.maxSize, b.maxSize))
  }

  function WindowStart(time: int, width: int): int
    requires width > 0
  {
    time / width * width
  }

  /** Combine neighbouring rows that fall in the same window of `width`. */
  function RollUp(rows: seq<Totals>, width: int): seq<Totals>
    requires width > 0
  {
    if rows == [] then [] else Rolled(RollUp(rows[..|rows| - 1], width), rows[|rows| - 1], width)
  }

  function Rolled(acc: seq<Totals>, row: Totals, width: int): seq<Totals>
    requires width > 0
  {
    var start := WindowStart(row.start, width);
    if acc != [] && acc[|acc| - 1].start == start then acc[..|acc| - 1] + [Join(acc[|acc| - 1], row)]
    else acc + [row.(start := start)]
  }

  function TradeTotals(t: Trade, start: int): Totals {
    TotalsOf(Finish(Add(Opened(0, t), t), 0)).(start := start)
  }

  lemma AddJoins(b: Bucket, t: Trade, width: int)
    requires b.sizes != [] && b.count == |b.sizes|
    ensures TotalsOf(Finish(Add(b, t), width)) == Join(TotalsOf(Finish(b, width)), TradeTotals(t, t.time))
  {
    assert (b.sizes + [t.quantity])[..|b.sizes|] == b.sizes;
    assert [] + [t.quantity] == [t.quantity];
  }

  function TotalsRows(buckets: seq<Bucket>, width: int): seq<Totals>
    requires Finishable(buckets)
  {
    AllTotals(FinishAll(buckets, width))
  }

  lemma SameSlotSameStart(a: int, b: int, width: int)
    requires width > 0
    ensures a == b <==> a * width == b * width
  {
    MulMonotone(a + 1, b, width);
    MulMonotone(b + 1, a, width);
    assert (a + 1) * width == a * width + width && (b + 1) * width == b * width + width;
  }

  lemma FreshTotals(t: Trade, slot: int, width: int)
    ensures var b := Add(Opened(slot, t), t);
            b.sizes != [] && b.count == |b.sizes| && TotalsOf(Finish(b, width)) == TradeTotals(t, slot * width)
  {
    assert [] + [t.quantity] == [t.quantity];
  }

  lemma TotalsRowsAppend(buckets: seq<Bucket>, b: Bucket, width: int)
    requires Finishable(buckets) && b.sizes != [] && b.count == |b.sizes|
    ensures Finishable(buckets + [b])
    ensures TotalsRows(buckets + [b], width) == TotalsRows(buckets, width) + [TotalsOf(Finish(b, width))]
  {
  }

  lemma RolledOnto(acc: seq<Totals>, x: Totals, row: Totals, width: int)
    requires width > 0 && x.start == WindowStart(row.start, width)
    ensures Rolled(acc + [x], row, width) == acc + [Join(x, row)]
  {
    assert (acc + [x])[..|acc|] == acc;
  }

  lemma FedSameRow(prefix: seq<Bucket>, last: Bucket, t: Trade, width: int)
    requires width > 0 && Finishable(prefix) && last.sizes != [] && last.count == |last.sizes|
    requires last.slot == Slot(t.time, width)
    ensures Finishable(prefix + [last]) && Finishable(prefix + [Add(last, t)])
    ensures TotalsRows(prefix + [Add(last, t)], width)
            == Rolled(TotalsRows(prefix + [last], width), TradeTotals(t, t.time), width)
  {
    AddJoins(last, t, width);
    TotalsRowsAppend(prefix, last, width);
    TotalsRowsAppend(prefix, Add(last, t), width);
    RolledOnto(TotalsRows(prefix, width), TotalsOf(Finish(last, width)), TradeTotals(t, t.time), width);
  }

  lemma FedNewRow(buckets: seq<Bucket>, t: Trade, width: int)
    requires width > 0 && Finishable(buckets)
    requires buckets != [] ==> buckets[|buckets| - 1].slot != Slot(t.time, width)
    ensures Finishable(Fed(buckets, t, width))
    ensures TotalsRows(Fed(buckets, t, width), width)
        == Rolled(TotalsRows(buckets, width), TradeTotals(t, t.time), width)
  {
    var slot := Slot(t.time, width);
    FreshTotals(t, slot, width);
    TotalsRowsAppend(buckets, Add(Opened(slot, t), t), width);
    if buckets != [] {
      SameSlotSameStart(buckets[|buckets| - 1].slot, slot, width);
    }
  }

  lemma FedTotalsRows(buckets: seq<Bucket>, t: Trade, width: int)
    requires width > 0 && Finishable(buckets)
    ensures Finishable(Fed(buckets, t, width))
    ensures TotalsRows(Fed(buckets, t, width), width)
        == Rolled(TotalsRows(buckets, width), TradeTotals(t, t.time), width)
  {
    if buckets != [] && buckets[|buckets| - 1].slot == Slot(t.time, width) {
      var prefix, last := buckets[..|buckets| - 1], buckets[|buckets| - 1];
      assert buckets == prefix + [last];
      FedSameRow(prefix, last, t, width);
    } else {
      FedNewRow(buckets, t, width);
    }
  }

  /** Feeding one trade, seen from the published columns. */
  lemma FedTotals(trades: seq<Trade>, t: Trade, width: int)
    requires width > 0
    ensures AllTotals(PublishedRows(trades + [t], width))
            == Rolled(AllTotals(PublishedRows(trades, width)), TradeTotals(t, t.time), width)
  {
    assert (trades + [t])[..|trades|] == trades;
    OnePassFinishable(trades, width);
    FedTotalsRows(OnePass(trades, width), t, width);
  }

  lemma WindowOfWindow(time: int, fine: int, k: int)
    requires fine > 0 && k > 0
    ensures fine * k > 0 && WindowStart(WindowStart(time, fine), fine * k) == WindowStart(time, fine * k)
  {
    DivDiv(time, fine, k);
    var start := WindowStart(time, fine);
    DivDiv(start, fine, k);
    DivWindow(start, fine, time / fine);
  }

  lemma JoinAssociative(a: Totals, b: Totals, c: Totals)
    ensures Join(a, Join(b, c)) == Join(Join(a, b), c)
  {
  }

  lemma RollUpAppend(rows: seq<Totals>, y: Totals, width: int)
    requires width > 0
    ensures RollUp(rows + [y], width) == Rolled(RollUp(rows, width), y, width)
  {
    assert (rows + [y])[..|rows|] == rows;
  }

  /** Joining onto the last fine row first, or onto the coarse row it went into. */
  lemma RolledJoined(acc: seq<Totals>, y: Totals, t: Totals, width: int)
    requires width > 0 && WindowStart(t.start, width) == WindowStart(y.start, width)
    ensures Rolled(acc, Join(y, t), width) == Rolled(Rolled(acc, y, width), t, width)
  {
    if acc != [] {
      JoinAssociative(acc[|acc| - 1], y, t);
    }
  }

  /** Rolling up after feeding a fine row equals feeding the coarse rows. */
  lemma RollUpRolled(rows: seq<Totals>, t: Totals, fine: int, k: int)
    requires fine > 0 && k > 0 && fine * k > 0
    ensures RollUp(Rolled(rows, t, fine), fine * k) == Rolled(RollUp(rows, fine * k), t, fine * k)
  {
    WindowOfWindow(t.start, fine, k);
    var start := WindowStart(t.start, fine);
    if rows != [] && rows[|rows| - 1].start == start {
      var prefix, y := rows[..|rows| - 1], rows[|rows| - 1];
      RollUpAppend(prefix, Join(y, t), fine * k);
      RolledJoined(RollUp(prefix, fine * k), y, t, fine * k);
    } else {
      RollUpAppend(rows, t.(start := start), fine * k);
    }
  }

  /** Main result: the coarse rows are the fine rows rolled up, for any source and any coarser width. */
  lemma {:induction false} CoarseIsRollUpOfFine(trades: seq<Trade>, fine: int, k: int)
    requires fine > 0 && k > 0 && fine * k > 0
    ensures AllTotals(PublishedRows(trades, fine * k)) == RollUp(AllTotals(PublishedRows(trades, fine)), fine * k)
  {
    if trades != [] {
      var prefix, t := trades[..|trades| - 1], trades[|trades| - 1];
      assert trades == prefix + [t];
      CoarseIsRollUpOfFine(prefix, fine, k);
      FedTotals(prefix, t, fine);
      FedTotals(prefix, t, fine * k);
      RollUpRolled(AllTotals(PublishedRows(prefix, fine)), TradeTotals(t, t.time), fine, k);
    }
  }

  /** Minute rows from second rows, minute rows from five-second rows, five-second rows from second rows. */
  lemma ApprovedWidthsRollUp(trades: seq<Trade>)
    ensures var one, five, sixty := SECOND_US, 5 * SECOND_US, 60 * SECOND_US;
            && AllTotals(PublishedRows(trades, sixty)) == RollUp(AllTotals(PublishedRows(trades, one)), sixty)
            && AllTotals(PublishedRows(trades, sixty)) == RollUp(AllTotals(PublishedRows(trades, five)), sixty)
            && AllTotals(PublishedRows(trades, five)) == RollUp(AllTotals(PublishedRows(trades, one)), five)
  {
    CoarseIsRollUpOfFine(trades, SECOND_US, 60);
    CoarseIsRollUpOfFine(trades, 5 * SECOND_US, 12);
    CoarseIsRollUpOfFine(trades, SECOND_US, 5);
  }

  /** No fine window straddles two coarse ones. */
  lemma NoFineRowStraddles(slot: int, fine: int, k: int, time: int)
    requires fine > 0 && k > 0 && slot * fine <= time < slot * fine + fine
    ensures fine * k > 0 && time / (fine * k) == slot * fine / (fine * k)
  {
    DivDiv(time, fine, k);
    DivDiv(slot * fine, fine, k);
    DivWindow(time, fine, slot);
    DivWindow(slot * fine, fine, slot);
  }

  // ---------------------------------------------------------------- roll-up against a filter

  /** The rows of one coarse window. */
  function Within(rows: seq<Totals>, width: int, start: int): seq<Totals>
    requires width > 0
  {
    if rows == [] then []
    else
      var r := rows[|rows| - 1];
      Within(rows[..|rows| - 1], width, start) + if WindowStart(r.start, width) == start then [r] else []
  }

  function JoinAll(rows: seq<Totals>): Totals
    requires rows != []
  {
    if |rows| == 1 then rows[0] else Join(JoinAll(rows[..|rows| - 1]), rows[|rows| - 1])
  }

  predicate JoinsWindow(r: Totals, rows: seq<Totals>, width: int)
    requires width > 0
  {
    var w := Within(rows, width, r.start);
    w != [] && r == JoinAll(w).(start := r.start)
  }

  predicate StartsAscend(rows: seq<Totals>) {
    forall i, j :: 0 <= i < j < |rows| ==> rows[i].start < rows[j].start
  }

  lemma {:induction false} WithinEmpty(rows: seq<Totals>, width: int, start: int)
    requires width > 0
    requires forall i :: 0 <= i < |rows| ==> WindowStart(rows[i].start, width) != start
    ensures Within(rows, width, start) == []
  {
    if rows != [] {
      WithinEmpty(rows[..|rows| - 1], width, start);
    }
  }

  lemma RolledJoins(rows: seq<Totals>, acc: seq<Totals>, y: Totals, width: int, i: nat)
    requires width > 0 && i < |Rolled(acc, y, width)|
    requires forall j :: 0 <= j < |acc| ==> JoinsWindow(acc[j], rows, width)
    requires StartsAscend(acc)
    requires (acc == [] || acc[|acc| - 1].start != WindowStart(y.start, width)) ==>
        Within(rows, width, WindowStart(y.start, width)) == []
    requires forall j :: 0 <= j < |acc| ==> acc[j].start <= WindowStart(y.start, width)
    ensures JoinsWindow(Rolled(acc, y, width)[i], rows + [y], width)
  {
    var r := Rolled(acc, y, width)[i];
    assert (rows + [y])[..|rows|] == rows;
    var w := Within(rows, width, r.start);
    if r.start != WindowStart(y.start, width) {
      assert w + [] == w;
    } else if i < |acc| {
      assert (w + [y])[..|w|] == w;
    } else {
      assert [] + [y] == [y];
    }
  }

  predicate JoinsWindows(acc: seq<Totals>, rows: seq<Totals>, width: int)
    requires width > 0
  {
    forall i :: 0 <= i < |acc| ==> JoinsWindow(acc[i], rows, width)
  }

  lemma RolledJoinsWindows(rows: seq<Totals>, acc: seq<Totals>, y: Totals, width: int)
    requires width > 0 && JoinsWindows(acc, rows, width) && StartsAscend(acc)
    requires acc != [] ==> acc[|acc| - 1].start <= WindowStart(y.start, width)
    requires (acc == [] || acc[|acc| - 1].start != WindowStart(y.start, width)) ==>
        Within(rows, width, WindowStart(y.start, width)) == []
    ensures JoinsWindows(Rolled(acc, y, width), rows + [y], width) && StartsAscend(Rolled(acc, y, width))
  {
    forall i | 0 <= i < |Rolled(acc, y, width)|
      ensures JoinsWindow(Rolled(acc, y, width)[i], rows + [y], width)
    {
      RolledJoins(rows, acc, y, width, i);
    }
  }

  /** On rows in ascending order each rolled-up row is the join of all rows of its window. */
  lemma {:induction false} RollUpIsWindowJoin(rows: seq<Totals>, width: int)
    requires width > 0 && StartsAscend(rows)
    ensures StartsAscend(RollUp(rows, width)) && JoinsWindows(RollUp(rows, width), rows, width)
    ensures if rows == [] then RollUp(rows, width) == []
            else RollUp(rows, width) != []
                 && RollUp(rows, width)[|RollUp(rows, width)| - 1].start == WindowStart(rows[|rows| - 1].start, width)
  {
    if rows != [] {
      var prefix, y := rows[..|rows| - 1], rows[|rows| - 1];
      assert rows == prefix + [y];
      RollUpIsWindowJoin(prefix, width);
      var start := WindowStart(y.start, width);
      if prefix != [] {
        var z := prefix[|prefix| - 1];
        WindowMonotone(z.start, y.start, width);
        if WindowStart(z.start, width) != start {
          forall i | 0 <= i < |prefix|
            ensures WindowStart(prefix[i].start, width) != start
          {
            WindowMonotone(prefix[i].start, z.start, width);
          }
          WithinEmpty(prefix, width, start);
        }
      }
      RolledJoinsWindows(prefix, RollUp(prefix, width), y, width);
    }
  }

  lemma WindowMonotone(a: int, b: int, width: int)
    requires width > 0 && a <= b
    ensures WindowStart(a, width) <= WindowStart(b, width)
  {
    DivMonotone(a, b, width);
    MulMonotone(a / width, b / width, width);
  }

  lemma PublishedAscend(trades: seq<Trade>, width: int)
    requires width > 0 && TimeOrdered(trades)
    ensures StartsAscend(AllTotals(PublishedRows(trades, width)))
  {
    var rows := AllTotals(PublishedRows(trades, width));
    forall a, b | 0 <= a < b < |rows|
      ensures rows[a].start < rows[b].start
    {
      PublishedSlot(trades, width, a);
      PublishedSlot(trades, width, b);
      SlotsAscend(trades, width, a, b);
      WindowsApart(OnePass(trades, width)[a].slot, OnePass(trades, width)[b].slot, width);
    }
  }

  /** Main result, declaratively: each coarse row combines exactly the fine rows of its window. */
  lemma CoarseRowJoinsFineRows(trades: seq<Trade>, fine: int, k: int, i: nat)
    requires fine > 0 && k > 0 && fine * k > 0 && TimeOrdered(trades)
    requires i < |PublishedRows(trades, fine * k)|
    ensures JoinsWindow(TotalsOf(PublishedRows(trades, fine * k)[i]), AllTotals(PublishedRows(trades, fine)), fine * k)
  {
    var rows := AllTotals(PublishedRows(trades, fine));
    CoarseIsRollUpOfFine(trades, fine, k);
    PublishedAscend(trades, fine);
    RollUpIsWindowJoin(rows, fine * k);
    assert AllTotals(PublishedRows(trades, fine * k))[i] == TotalsOf(PublishedRows(trades, fine * k)[i]);
  }
}
