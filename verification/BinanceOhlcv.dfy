/** `fetch_rest_final` of binance/spot_ohlcv.py: forward pagination over one-minute candles. */
module BinanceOhlcv {
  import opened Common
  import opened Candles

  /** The row loop of one page, over the rows whose interval ended before `end`. */
  function Keep(rows: seq<Candle>, end: int, m: map<int, Candle>): Result<map<int, Candle>, FetchError> {
    if rows == [] then Ok(m)
    else
      var c := rows[0];
      if c.close >= end then Keep(rows[1..], end, m)
      else if c.open in m && m[c.open] != c then Err(ConflictingCandle)
      else Keep(rows[1..], end, m[c.open := c])
  }

  function Next(rows: seq<Candle>): int
    requires rows != []
  {
    rows[|rows| - 1].open + INTERVAL_MS
  }

  /** A short page, a cursor that does not advance, or one past the range ends the traversal. */
  predicate LastPage(rows: seq<Candle>, cursor: int, end: int) {
    |rows| < PAGE_LIMIT || Next(rows) <= cursor || Next(rows) >= end
  }

  /** The page loop from page number `page` on; running out of pages is an error. */
  function Fetch(server: Server, end: int, page: nat, cursor: int, m: map<int, Candle>)
      : Result<map<int, Candle>, FetchError>
    requires page <= PAGE_BUDGET
    decreases PAGE_BUDGET - page
  {
    if page == PAGE_BUDGET then Err(SafetyLimit)
    else
      match server(page, cursor, end)
      case Refused(e) => Err(e)
      case Page(rows) =>
        var kept := Keep(rows, end, m);
        if kept.Err? || LastPage(rows, cursor, end) then kept
        else Fetch(server, end, page + 1, Next(rows), kept.value)
  }

  function FetchAll(server: Server, start: int, end: int): Result<map<int, Candle>, FetchError> {
    Fetch(server, end, 0, start, map[])
  }

  // ---------------------------------------------------------------- against any server

  predicate Final(m: map<int, Candle>, end: int) {
    forall k :: k in m ==> m[k].open == k && m[k].close < end
  }

  lemma {:induction false} KeepIsFinal(rows: seq<Candle>, end: int, m: map<int, Candle>)
    requires Final(m, end)
    ensures Keep(rows, end, m).Ok? ==> Final(Keep(rows, end, m).value, end)
  {
    if rows != [] {
      if rows[0].close >= end {
        KeepIsFinal(rows[1..], end, m);
      } else if !(rows[0].open in m && m[rows[0].open] != rows[0]) {
        KeepIsFinal(rows[1..], end, m[rows[0].open := rows[0]]);
      }
    }
  }

  /** The loops of the source.  `cursors` records the start times requested. */
  method FetchRestFinal(server: Server, start: int, end: int)
      returns (r: Result<seq<Candle>, FetchError>, ghost cursors: seq<int>)
    ensures r.Ok? <==> FetchAll(server, start, end).Ok?
    ensures r.Err? ==> r.error == FetchAll(server, start, end).error
    ensures r.Ok? ==>
              && Ascending(r.value)
              && (forall c :: c in r.value ==> c.close < end)
              && (forall c :: c in r.value <==> c.open in FetchAll(server, start, end).value
                                                && FetchAll(server, start, end).value[c.open] == c)
    ensures |cursors| <= 10_000
    ensures forall i, j :: 0 <= i < j < |cursors| ==> cursors[i] < cursors[j] < end
  {
    var cursor := start;
    var byOpen: map<int, Candle> := map[];
    cursors := [];
    for page := 0 to PAGE_BUDGET
      invariant |cursors| == page && Final(byOpen, end)
      invariant FetchAll(server, start, end) == Fetch(server, end, page, cursor, byOpen)
      invariant forall i, j :: 0 <= i < j < |cursors| ==> cursors[i] < cursors[j] < end
      invariant forall i :: 0 <= i < |cursors| ==> cursors[i] < cursor < end
    {
      cursors := cursors + [cursor];
      var response := server(page, cursor, end);
      if response.Refused? {
        return Err(response.error), cursors;
      }
      KeepIsFinal(response.rows, end, byOpen);
      var kept := KeepPage(response.rows, end, byOpen);
      if kept.Err? {
        return Err(kept.error), cursors;
      }
      byOpen := kept.value;
      if LastPage(response.rows, cursor, end) {
        var s := SortedByOpen(byOpen);
        assert forall c :: c in s ==> byOpen[c.open].close < end;
        return Ok(s), cursors;
      }
      cursor := Next(response.rows);
    }
    r := Err(SafetyLimit);
  }

  method KeepPage(rows: seq<Candle>, end: int, m: map<int, Candle>) returns (r: Result<map<int, Candle>, FetchError>)
    ensures r == Keep(rows, end, m)
  {
    var byOpen := m;
    for i := 0 to |rows|
      invariant Keep(rows, end, m) == Keep(rows[i..], end, byOpen)
    {
      var c := rows[i];
      if c.close < end {
        if c.open in byOpen && byOpen[c.open] != c {
          return Err(ConflictingCandle);
        }
        byOpen := byOpen[c.open := c];
      }
      assert rows[i..][1..] == rows[i + 1..];
    }
    r := Ok(byOpen);
  }

  // ---------------------------------------------------------------- against an honest server

  /** The dictionary of the candles of `s` that ended before `end`. */
  function FinalMap(s: seq<Candle>, end: int): map<int, Candle> {
    if s == [] then map[]
    else
      var c := s[|s| - 1];
      if c.close < end then FinalMap(s[..|s| - 1], end)[c.open := c] else FinalMap(s[..|s| - 1], end)
  }

  lemma LastIsNewest(prefix: seq<Candle>, last: Candle)
    requires Ascending(prefix + [last])
    ensures forall c :: c in prefix ==> c.open < last.open
  {
    forall c | c in prefix
      ensures c.open < last.open
    {
      var i :| 0 <= i < |prefix| && prefix[i] == c;
      assert (prefix + [last])[i] == c && (prefix + [last])[|prefix|] == last;
    }
  }

  lemma {:induction false} FinalMapEntries(s: seq<Candle>, end: int)
    requires Ascending(s)
    ensures forall k :: k in FinalMap(s, end) ==>
              FinalMap(s, end)[k].open == k && FinalMap(s, end)[k] in s && FinalMap(s, end)[k].close < end
    ensures forall c :: c in s && c.close < end ==> c.open in FinalMap(s, end) && FinalMap(s, end)[c.open] == c
  {
    if s != [] {
      var prefix, last := s[..|s| - 1], s[|s| - 1];
      assert s == prefix + [last];
      FinalMapEntries(prefix, end);
      LastIsNewest(prefix, last);
    }
  }

  lemma FinalMapExtends(seen: seq<Candle>, c: Candle, end: int)
    requires Ascending(seen + [c])
    ensures c.open !in FinalMap(seen, end)
    ensures FinalMap(seen + [c], end) == if c.close < end then FinalMap(seen, end)[c.open := c] else FinalMap(seen, end)
  {
    assert (seen + [c])[..|seen|] == seen;
    assert Ascending(seen) && forall i :: 0 <= i < |seen| ==> seen[i].open < c.open by {
      forall i | 0 <= i < |seen|
        ensures (seen + [c])[i] == seen[i] && (seen + [c])[|seen|] == c
      {
      }
    }
    FinalMapEntries(seen, end);
  }

  lemma AscendingPrefix(a: seq<Candle>, b: seq<Candle>)
    requires Ascending(a + b)
    ensures Ascending(a)
  {
    forall i | 0 <= i < |a|
      ensures (a + b)[i] == a[i]
    {
    }
  }

  lemma {:induction false} KeepExtends(rows: seq<Candle>, end: int, seen: seq<Candle>)
    requires Ascending(seen + rows)
    ensures Keep(rows, end, FinalMap(seen, end)) == Ok(FinalMap(seen + rows, end))
  {
    if rows == [] {
      assert seen + rows == seen;
    } else {
      var c, rest := rows[0], rows[1..];
      assert seen + rows == (seen + [c]) + rest;
      AscendingPrefix(seen + [c], rest);
      FinalMapExtends(seen, c, end);
      KeepExtends(rest, end, seen + [c]);
    }
  }

  /** Where the traversal stands once the first `k` candles of the range are seen. */
  function Cursor(avail: seq<Candle>, start: int, k: nat): int
    requires k <= |avail|
  {
    if k == 0 then start else avail[k - 1].open + INTERVAL_MS
  }

  function Stage(server: Server, avail: seq<Candle>, start: int, end: int, page: nat, k: nat)
      : Result<map<int, Candle>, FetchError>
    requires page <= PAGE_BUDGET && k <= |avail|
  {
    Fetch(server, end, page, Cursor(avail, start, k), FinalMap(avail[..k], end))
  }

  function SeenAfter(avail: seq<Candle>, k: nat): nat
    requires k <= |avail|
  {
    if |avail| - k < PAGE_LIMIT then |avail| else k + PAGE_LIMIT
  }

  lemma AvailableShape(store: seq<Candle>, start: int, end: int)
    requires MinuteSpaced(store)
    ensures MinuteSpaced(Range(store, start, end)) && Ascending(Range(store, start, end))
    ensures forall i :: 0 <= i < |Range(store, start, end)| ==> start <= Range(store, start, end)[i].open <= end
  {
    RangeSpaced(store, start, end);
    RangeMembers(store, start, end);
    var avail := Range(store, start, end);
    forall i | 0 <= i < |avail|
      ensures start <= avail[i].open <= end
    {
      assert avail[i] in avail;
    }
  }

  lemma UnseenRange(store: seq<Candle>, start: int, end: int, k: nat)
    requires MinuteSpaced(store) && k <= |Range(store, start, end)|
    ensures Range(store, Cursor(Range(store, start, end), start, k), end) == Range(store, start, end)[k..]
  {
    AvailableShape(store, start, end);
    RangeSpaced(store, start, end);
    if k > 0 {
      RangeAbove(store, start, end, k, Range(store, start, end)[k - 1].open + INTERVAL_MS);
    } else {
      assert Range(store, start, end)[0..] == Range(store, start, end);
    }
  }

  lemma FirstUnseen(avail: seq<Candle>, k: nat)
    requires k <= |avail|
    ensures First(avail[k..], PAGE_LIMIT) == avail[k..SeenAfter(avail, k)]
  {
  }

  lemma HonestPage(server: Server, store: seq<Candle>, start: int, end: int, page: nat, k: nat)
    requires ServesOldestFirst(server, store) && MinuteSpaced(store) && k <= |Range(store, start, end)|
    ensures var avail := Range(store, start, end);
            server(page, Cursor(avail, start, k), end) == Page(avail[k..SeenAfter(avail, k)])
  {
    UnseenRange(store, start, end, k);
    FirstUnseen(Range(store, start, end), k);
  }

  lemma HonestKeep(avail: seq<Candle>, end: int, k: nat, j: nat)
    requires Ascending(avail) && k <= j <= |avail|
    ensures Keep(avail[k..j], end, FinalMap(avail[..k], end)) == Ok(FinalMap(avail[..j], end))
  {
    assert avail[..k] + avail[k..j] == avail[..j];
    assert avail == avail[..j] + avail[j..];
    AscendingPrefix(avail[..j], avail[j..]);
    KeepExtends(avail[k..j], end, avail[..k]);
  }

  predicate More(avail: seq<Candle>, end: int, k: nat) {
    k + PAGE_LIMIT <= |avail| && avail[k + PAGE_LIMIT - 1].open + INTERVAL_MS < end
  }

  /** The page's own test decides exactly whether another page is requested. */
  lemma HonestLastPage(store: seq<Candle>, start: int, end: int, k: nat)
    requires MinuteSpaced(store) && k <= |Range(store, start, end)|
    ensures var avail := Range(store, start, end);
            LastPage(avail[k..SeenAfter(avail, k)], Cursor(avail, start, k), end) <==> !More(avail, end, k)
    ensures var avail := Range(store, start, end);
            More(avail, end, k) ==> Next(avail[k..SeenAfter(avail, k)]) == Cursor(avail, start, k + PAGE_LIMIT)
  {
    AvailableShape(store, start, end);
  }

  lemma HonestStep(server: Server, store: seq<Candle>, start: int, end: int, page: nat, k: nat)
    requires ServesOldestFirst(server, store) && MinuteSpaced(store)
    requires page < PAGE_BUDGET && k <= |Range(store, start, end)|
    ensures var avail := Range(store, start, end);
            Stage(server, avail, start, end, page, k)
            == if More(avail, end, k) then Stage(server, avail, start, end, page + 1, k + PAGE_LIMIT)
               else Ok(FinalMap(avail[..SeenAfter(avail, k)], end))
  {
    AvailableShape(store, start, end);
    HonestPage(server, store, start, end, page, k);
    HonestLastPage(store, start, end, k);
    HonestKeep(Range(store, start, end), end, k, SeenAfter(Range(store, start, end), k));
  }

  lemma {:induction false} NothingFinalAfter(avail: seq<Candle>, end: int, k: nat)
    requires k <= |avail| && forall i :: k <= i < |avail| ==> avail[i].close >= end
    ensures FinalMap(avail[..k], end) == FinalMap(avail, end)
    decreases |avail|
  {
    if k == |avail| {
      assert avail[..k] == avail;
    } else {
      var prefix := avail[..|avail| - 1];
      assert prefix[..k] == avail[..k];
      NothingFinalAfter(prefix, end, k);
    }
  }

  /** When no further page is requested, nothing final is missing. */
  lemma StoppedIsComplete(avail: seq<Candle>, end: int, k: nat)
    requires MinuteSpaced(avail) && k <= |avail| && !More(avail, end, k)
    ensures FinalMap(avail[..SeenAfter(avail, k)], end) == FinalMap(avail, end)
  {
    var j := SeenAfter(avail, k);
    if j < |avail| {
      assert avail[j - 1].open + INTERVAL_MS >= end;
      forall i | j <= i < |avail|
        ensures avail[i].close >= end
      {
        assert avail[j - 1].open + INTERVAL_MS <= avail[i].open;
      }
    }
    NothingFinalAfter(avail, end, j);
  }

  /** Another page past the budget is wanted, `page` pages after which `k` candles are seen. */
  predicate Exhausted(avail: seq<Candle>, end: int, page: nat, k: nat)
    requires page <= PAGE_BUDGET
  {
    var n := k + PAGE_LIMIT * (PAGE_BUDGET - page);
    page == PAGE_BUDGET || (n <= |avail| && avail[n - 1].open + INTERVAL_MS < end)
  }

  lemma ExhaustedStep(avail: seq<Candle>, end: int, page: nat, k: nat)
    requires MinuteSpaced(avail) && page < PAGE_BUDGET && k <= |avail|
    ensures !More(avail, end, k) ==> !Exhausted(avail, end, page, k)
    ensures More(avail, end, k) ==> (Exhausted(avail, end, page + 1, k + PAGE_LIMIT)
        <==> Exhausted(avail, end, page, k))
  {
    var n := k + PAGE_LIMIT * (PAGE_BUDGET - page);
    if n <= |avail| && k + PAGE_LIMIT < n {
      assert avail[k + PAGE_LIMIT - 1].open + INTERVAL_MS <= avail[n - 1].open;
    }
  }

  lemma {:induction false} HonestFetch(server: Server, store: seq<Candle>, start: int, end: int, page: nat, k: nat)
    requires ServesOldestFirst(server, store) && MinuteSpaced(store)
    requires page <= PAGE_BUDGET && k <= |Range(store, start, end)|
    ensures Stage(server, Range(store, start, end), start, end, page, k)
            == if Exhausted(Range(store, start, end), end, page, k) then Err(SafetyLimit)
               else Ok(FinalMap(Range(store, start, end), end))
    decreases PAGE_BUDGET - page
  {
    if page < PAGE_BUDGET {
      AvailableShape(store, start, end);
      HonestStep(server, store, start, end, page, k);
      ExhaustedStep(Range(store, start, end), end, page, k);
      if More(Range(store, start, end), end, k) {
        HonestFetch(server, store, start, end, page + 1, k + PAGE_LIMIT);
      } else {
        StoppedIsComplete(Range(store, start, end), end, k);
      }
    }
  }

  /** The range holds ten million candles whose last one ends before the minute preceding `end`. */
  predicate TooLong(avail: seq<Candle>, end: int) {
    |avail| >= PAGE_LIMIT * PAGE_BUDGET && avail[PAGE_LIMIT * PAGE_BUDGET - 1].open + INTERVAL_MS < end
  }

  /** Main result: against an honest server the fetch raises exactly on an over-long range, and otherwise
      returns every candle of the range that ended before `end`. */
  lemma CompleteOrSafetyLimit(server: Server, store: seq<Candle>, start: int, end: int)
    requires ServesOldestFirst(server, store) && MinuteSpaced(store)
    ensures FetchAll(server, start, end)
            == if TooLong(Range(store, start, end), end) then Err(SafetyLimit)
               else Ok(FinalMap(Range(store, start, end), end))
  {
    assert Range(store, start, end)[..0] == [];
    HonestFetch(server, store, start, end, 0, 0);
  }
}
