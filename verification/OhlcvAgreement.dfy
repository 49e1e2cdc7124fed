/** The two traversals, opposite in direction and in the stop they make at their page budget, meet. */
module OhlcvAgreement {
  import opened Common
  import opened Candles
  import BinanceOhlcv
  import BybitOhlcv

  /** A candle that ended before `end` opened at least a minute before it, so the bounds of both ranges agree on it. */
  lemma SameCandles(store: seq<Candle>, q: BybitOhlcv.Query, c: Candle)
    requires MinuteSpaced(store) && q.cutoff == q.end
    ensures c in Range(store, q.start, q.end) && c.close < q.end
            <==> c in BybitOhlcv.Available(store, q) && BybitOhlcv.Closed(c, q)
  {
    RangeMembers(store, q.start, q.end);
    RangeMembers(store, q.start, q.end - 1);
  }

  lemma ForwardEntries(store: seq<Candle>, q: BybitOhlcv.Query, k: int)
    requires MinuteSpaced(store) && k in BinanceOhlcv.FinalMap(Range(store, q.start, q.end), q.end)
    ensures var c := BinanceOhlcv.FinalMap(Range(store, q.start, q.end), q.end)[k];
            c.open == k && c in Range(store, q.start, q.end) && c.close < q.end
  {
    RangeSpaced(store, q.start, q.end);
    BinanceOhlcv.FinalMapEntries(Range(store, q.start, q.end), q.end);
  }

  lemma ReverseEntries(store: seq<Candle>, q: BybitOhlcv.Query, k: int)
    requires MinuteSpaced(store) && k in BybitOhlcv.ClosedMap(BybitOhlcv.Available(store, q), q)
    ensures var c := BybitOhlcv.ClosedMap(BybitOhlcv.Available(store, q), q)[k];
            c.open == k && c in BybitOhlcv.Available(store, q) && BybitOhlcv.Closed(c, q)
  {
    RangeSpaced(store, q.start, q.end - 1);
    BybitOhlcv.ClosedMapEntries(BybitOhlcv.Available(store, q), q);
  }

  lemma ForwardInReverse(store: seq<Candle>, q: BybitOhlcv.Query, k: int)
    requires MinuteSpaced(store) && q.cutoff == q.end
    requires k in BinanceOhlcv.FinalMap(Range(store, q.start, q.end), q.end)
    ensures k in BybitOhlcv.ClosedMap(BybitOhlcv.Available(store, q), q)
    ensures BybitOhlcv.ClosedMap(BybitOhlcv.Available(store, q), q)[k]
            == BinanceOhlcv.FinalMap(Range(store, q.start, q.end), q.end)[k]
  {
    ForwardEntries(store, q, k);
    SameCandles(store, q, BinanceOhlcv.FinalMap(Range(store, q.start, q.end), q.end)[k]);
    RangeSpaced(store, q.start, q.end - 1);
    BybitOhlcv.ClosedMapEntries(BybitOhlcv.Available(store, q), q);
  }

  lemma ReverseInForward(store: seq<Candle>, q: BybitOhlcv.Query, k: int)
    requires MinuteSpaced(store) && q.cutoff == q.end
    requires k in BybitOhlcv.ClosedMap(BybitOhlcv.Available(store, q), q)
    ensures k in BinanceOhlcv.FinalMap(Range(store, q.start, q.end), q.end)
  {
    ReverseEntries(store, q, k);
    SameCandles(store, q, BybitOhlcv.ClosedMap(BybitOhlcv.Available(store, q), q)[k]);
    RangeSpaced(store, q.start, q.end);
    BinanceOhlcv.FinalMapEntries(Range(store, q.start, q.end), q.end);
  }

  lemma SameDictionary(store: seq<Candle>, q: BybitOhlcv.Query)
    requires MinuteSpaced(store) && q.cutoff == q.end
    ensures BinanceOhlcv.FinalMap(Range(store, q.start, q.end), q.end)
            == BybitOhlcv.ClosedMap(BybitOhlcv.Available(store, q), q)
  {
    var forward := BinanceOhlcv.FinalMap(Range(store, q.start, q.end), q.end);
    var reverse := BybitOhlcv.ClosedMap(BybitOhlcv.Available(store, q), q);
    forall k | k in forward
      ensures k in reverse && reverse[k] == forward[k]
    {
      ForwardInReverse(store, q, k);
    }
    forall k | k in reverse
      ensures k in forward
    {
      ReverseInForward(store, q, k);
    }
  }

  /** A range the forward traversal finishes is within the budget of the reverse one. */
  lemma ForwardFits(store: seq<Candle>, q: BybitOhlcv.Query)
    requires MinuteSpaced(store) && !BinanceOhlcv.TooLong(Range(store, q.start, q.end), q.end)
    ensures |BybitOhlcv.Available(store, q)| <= PAGE_LIMIT * PAGE_BUDGET
  {
    if |BybitOhlcv.Available(store, q)| > PAGE_LIMIT * PAGE_BUDGET {
      OverflowIsTooLong(store, q);
    }
  }

  lemma OverflowIsTooLong(store: seq<Candle>, q: BybitOhlcv.Query)
    requires MinuteSpaced(store) && |BybitOhlcv.Available(store, q)| > PAGE_LIMIT * PAGE_BUDGET
    ensures BinanceOhlcv.TooLong(Range(store, q.start, q.end), q.end)
  {
    var longer, shorter := Range(store, q.start, q.end), BybitOhlcv.Available(store, q);
    var n := PAGE_LIMIT * PAGE_BUDGET;
    RangeSpaced(store, q.start, q.end);
    BybitOhlcv.AvailableShape(store, q);
    NarrowedIsPrefix(store, q.start, q.end);
    assert shorter[n] == longer[n] && shorter[n - 1] == longer[n - 1];
    assert longer[n - 1].open + INTERVAL_MS <= longer[n].open;
  }

  lemma LastIsNewest(s: seq<Candle>, c: Candle)
    requires Ascending(s) && c in s
    ensures c.open <= s[|s| - 1].open && s[|s| - 1] in s
  {
    var i :| 0 <= i < |s| && s[i] == c;
  }

  lemma NothingAtBound(store: seq<Candle>, lo: int, hi: int)
    requires Ascending(store)
    requires var s := Range(store, lo, hi); s == [] || s[|s| - 1].open < hi
    ensures Range(store, lo, hi - 1) == Range(store, lo, hi)
  {
    RangeAscending(store, lo, hi);
    RangeAscending(store, lo, hi - 1);
    RangeMembers(store, lo, hi);
    RangeMembers(store, lo, hi - 1);
    forall c | c in Range(store, lo, hi)
      ensures c.open < hi
    {
      LastIsNewest(Range(store, lo, hi), c);
    }
    AscendingUnique(Range(store, lo, hi), Range(store, lo, hi - 1));
  }

  lemma LastInRange(store: seq<Candle>, lo: int, hi: int)
    requires Range(store, lo, hi) != []
    ensures Range(store, lo, hi)[|Range(store, lo, hi)| - 1].open <= hi
  {
    RangeMembers(store, lo, hi);
    assert Range(store, lo, hi)[|Range(store, lo, hi)| - 1] in Range(store, lo, hi);
  }

  lemma NarrowedIsPrefix(store: seq<Candle>, lo: int, hi: int)
    requires MinuteSpaced(store)
    ensures Range(store, lo, hi - 1) <= Range(store, lo, hi)
  {
    RangeSpaced(store, lo, hi);
    var n := |Range(store, lo, hi)|;
    if n > 0 && Range(store, lo, hi)[n - 1].open == hi {
      RangeBelow(store, lo, hi, n - 1);
    } else {
      if n > 0 {
        LastInRange(store, lo, hi);
      }
      NothingAtBound(store, lo, hi);
    }
  }

  /** Main result: over one store, a forward fetch that returns agrees with the reverse fetch of the same range
      cut off at its end; the forward fetch raises only on an over-long range. */
  lemma TraversalsAgree(forward: Server, reverse: Server, store: seq<Candle>, start: int, end: int)
    requires MinuteSpaced(store) && ServesOldestFirst(forward, store) && ServesNewestFirst(reverse, store)
    ensures BinanceOhlcv.FetchAll(forward, start, end).Ok? ==>
              BybitOhlcv.FetchAll(reverse, BybitOhlcv.Query(start, end, end))
                  == BinanceOhlcv.FetchAll(forward, start, end)
  {
    var q := BybitOhlcv.Query(start, end, end);
    RangeSpaced(store, start, end);
    BinanceOhlcv.CompleteOrSafetyLimit(forward, store, start, end);
    if BinanceOhlcv.FetchAll(forward, start, end).Ok? {
      ForwardFits(store, q);
      SameDictionary(store, q);
      BybitOhlcv.CompleteExactly(reverse, store, q);
    }
  }
}
