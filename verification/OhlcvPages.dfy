/** What one page of candles adds, and which pages are refused, for both traversals. */
module OhlcvPages {
  import opened Common
  import opened Candles
  import BinanceOhlcv
  import BybitOhlcv

  /** Row `i` is one the reverse fetch keeps: inside the half-open range and closed by the cutoff. */
  predicate Kept(rows: seq<Candle>, q: BybitOhlcv.Query, i: int) {
    0 <= i < |rows| && q.start <= rows[i].open < q.end && rows[i].open + 60_000 <= q.cutoff
  }

  /** Rows kept of one open time are equal, to each other and to what is already collected. */
  ghost predicate Consistent(rows: seq<Candle>, q: BybitOhlcv.Query, m: map<int, Candle>) {
    && (forall i, j :: Kept(rows, q, i) && Kept(rows, q, j) && rows[i].open == rows[j].open ==> rows[i] == rows[j])
    && (forall i :: Kept(rows, q, i) && rows[i].open in m ==> m[rows[i].open] == rows[i])
  }

  predicate InPage(rows: seq<Candle>, q: BybitOhlcv.Query, cursor: int) {
    forall i :: 0 <= i < |rows| ==> q.start <= rows[i].open < cursor
  }

  lemma KeptShift(rows: seq<Candle>, q: BybitOhlcv.Query)
    requires rows != []
    ensures forall i :: Kept(rows, q, i + 1) <==> Kept(rows[1..], q, i) || (i == -1 && Kept(rows, q, 0))
  {
  }

  lemma ConsistentKept(rows: seq<Candle>, q: BybitOhlcv.Query, m: map<int, Candle>)
    requires rows != [] && Kept(rows, q, 0)
    ensures Consistent(rows, q, m)
            <==> (rows[0].open in m ==> m[rows[0].open] == rows[0])
                 && Consistent(rows[1..], q, m[rows[0].open := rows[0]])
  {
    var m' := m[rows[0].open := rows[0]];
    if Consistent(rows, q, m) {
      forall i | Kept(rows[1..], q, i)
        ensures Kept(rows, q, i + 1) && rows[1..][i] == rows[i + 1]
      {
      }
    }
    if (rows[0].open in m ==> m[rows[0].open] == rows[0]) && Consistent(rows[1..], q, m') {
      forall i | Kept(rows, q, i)
        ensures rows[i].open in m' ==> m'[rows[i].open] == rows[i]
      {
        assert i > 0 ==> Kept(rows[1..], q, i - 1) && rows[1..][i - 1] == rows[i];
      }
      forall i, j | Kept(rows, q, i) && Kept(rows, q, j) && rows[i].open == rows[j].open
        ensures rows[i] == rows[j]
      {
        assert i > 0 ==> Kept(rows[1..], q, i - 1) && rows[1..][i - 1] == rows[i];
        assert j > 0 ==> Kept(rows[1..], q, j - 1) && rows[1..][j - 1] == rows[j];
      }
    }
  }

  lemma ConsistentSkipped(rows: seq<Candle>, q: BybitOhlcv.Query, m: map<int, Candle>)
    requires rows != [] && !Kept(rows, q, 0)
    ensures Consistent(rows, q, m) <==> Consistent(rows[1..], q, m)
  {
    if Consistent(rows, q, m) {
      forall i | Kept(rows[1..], q, i)
        ensures Kept(rows, q, i + 1) && rows[1..][i] == rows[i + 1]
      {
      }
    }
    if Consistent(rows[1..], q, m) {
      forall i | Kept(rows, q, i)
        ensures i > 0 && Kept(rows[1..], q, i - 1) && rows[1..][i - 1] == rows[i]
      {
      }
    }
  }

  /** Main result: a page of the reverse fetch is taken exactly when every row lies in it and no open time repeats with
      other columns. */
  lemma {:induction false} PageAcceptedExactly(rows: seq<Candle>, q: BybitOhlcv.Query, cursor: int, m: map<int, Candle>)
    ensures BybitOhlcv.Absorb(rows, q, cursor, m).Ok? <==> InPage(rows, q, cursor) && Consistent(rows, q, m)
  {
    if rows != [] {
      InPageStep(rows, q, cursor);
      if Kept(rows, q, 0) {
        ConsistentKept(rows, q, m);
        PageAcceptedExactly(rows[1..], q, cursor, m[rows[0].open := rows[0]]);
      } else {
        ConsistentSkipped(rows, q, m);
        PageAcceptedExactly(rows[1..], q, cursor, m);
      }
    }
  }

  lemma InPageStep(rows: seq<Candle>, q: BybitOhlcv.Query, cursor: int)
    requires rows != []
    ensures InPage(rows, q, cursor) <==> q.start <= rows[0].open < cursor && InPage(rows[1..], q, cursor)
  {
    if InPage(rows[1..], q, cursor) {
      forall i | 1 <= i < |rows|
        ensures q.start <= rows[i].open < cursor
      {
        assert rows[1..][i - 1] == rows[i];
      }
    }
  }

  /** Then it adds exactly the kept rows. */
  lemma {:induction false} PageAddsExactly(rows: seq<Candle>, q: BybitOhlcv.Query, cursor: int, m: map<int, Candle>,
                                           k: int)
    requires BybitOhlcv.Absorb(rows, q, cursor, m).Ok?
    ensures k in BybitOhlcv.Absorb(rows, q, cursor, m).value
            <==> k in m || exists i :: Kept(rows, q, i) && rows[i].open == k
    ensures k in m ==> BybitOhlcv.Absorb(rows, q, cursor, m).value[k] == m[k]
  {
    if rows != [] {
      var next := if Kept(rows, q, 0) then m[rows[0].open := rows[0]] else m;
      PageAddsExactly(rows[1..], q, cursor, next, k);
      if i :| Kept(rows[1..], q, i) && rows[1..][i].open == k {
        assert Kept(rows, q, i + 1) && rows[i + 1].open == k;
      }
      if i :| Kept(rows, q, i) && rows[i].open == k && i > 0 {
        assert Kept(rows[1..], q, i - 1) && rows[1..][i - 1].open == k;
      }
    }
  }

  // ---------------------------------------------------------------- the forward fetch

  predicate Ended(rows: seq<Candle>, end: int, i: int) {
    0 <= i < |rows| && rows[i].close < end
  }

  ghost predicate Agreeing(rows: seq<Candle>, end: int, m: map<int, Candle>) {
    && (forall i, j :: Ended(rows, end, i) && Ended(rows, end, j) && rows[i].open == rows[j].open ==>
          rows[i] == rows[j])
    && (forall i :: Ended(rows, end, i) && rows[i].open in m ==> m[rows[i].open] == rows[i])
  }

  lemma AgreeingEnded(rows: seq<Candle>, end: int, m: map<int, Candle>)
    requires rows != [] && Ended(rows, end, 0)
    ensures Agreeing(rows, end, m)
            <==> (rows[0].open in m ==> m[rows[0].open] == rows[0])
                 && Agreeing(rows[1..], end, m[rows[0].open := rows[0]])
  {
    var m' := m[rows[0].open := rows[0]];
    if Agreeing(rows, end, m) {
      forall i | Ended(rows[1..], end, i)
        ensures Ended(rows, end, i + 1) && rows[1..][i] == rows[i + 1]
      {
      }
    }
    if (rows[0].open in m ==> m[rows[0].open] == rows[0]) && Agreeing(rows[1..], end, m') {
      forall i | Ended(rows, end, i)
        ensures rows[i].open in m' ==> m'[rows[i].open] == rows[i]
      {
        assert i > 0 ==> Ended(rows[1..], end, i - 1) && rows[1..][i - 1] == rows[i];
      }
      forall i, j | Ended(rows, end, i) && Ended(rows, end, j) && rows[i].open == rows[j].open
        ensures rows[i] == rows[j]
      {
        assert i > 0 ==> Ended(rows[1..], end, i - 1) && rows[1..][i - 1] == rows[i];
        assert j > 0 ==> Ended(rows[1..], end, j - 1) && rows[1..][j - 1] == rows[j];
      }
    }
  }

  lemma AgreeingSkipped(rows: seq<Candle>, end: int, m: map<int, Candle>)
    requires rows != [] && !Ended(rows, end, 0)
    ensures Agreeing(rows, end, m) <==> Agreeing(rows[1..], end, m)
  {
    if Agreeing(rows, end, m) {
      forall i | Ended(rows[1..], end, i)
        ensures Ended(rows, end, i + 1) && rows[1..][i] == rows[i + 1]
      {
      }
    }
    if Agreeing(rows[1..], end, m) {
      forall i | Ended(rows, end, i)
        ensures i > 0 && Ended(rows[1..], end, i - 1) && rows[1..][i - 1] == rows[i]
      {
      }
    }
  }

  /** Main result: a page of the forward fetch is refused exactly when an ended open time repeats with other columns. */
  lemma {:induction false} ForwardAcceptedExactly(rows: seq<Candle>, end: int, m: map<int, Candle>)
    ensures BinanceOhlcv.Keep(rows, end, m).Ok? <==> Agreeing(rows, end, m)
    ensures BinanceOhlcv.Keep(rows, end, m).Err? ==> BinanceOhlcv.Keep(rows, end, m).error == ConflictingCandle
  {
    if rows != [] {
      if Ended(rows, end, 0) {
        AgreeingEnded(rows, end, m);
        ForwardAcceptedExactly(rows[1..], end, m[rows[0].open := rows[0]]);
      } else {
        AgreeingSkipped(rows, end, m);
        ForwardAcceptedExactly(rows[1..], end, m);
      }
    }
  }

  // ---------------------------------------------------------------- contents of a complete fetch

  lemma ClosedContents(store: seq<Candle>, q: BybitOhlcv.Query, c: Candle)
    requires Ascending(store)
    ensures var m := BybitOhlcv.ClosedMap(BybitOhlcv.Available(store, q), q);
            c.open in m && m[c.open] == c
            <==> c in store && q.start <= c.open < q.end && c.open + 60_000 <= q.cutoff
  {
    BybitOhlcv.AvailableShape(store, q);
    BybitOhlcv.ClosedMapEntries(BybitOhlcv.Available(store, q), q);
    RangeMembers(store, q.start, q.end - 1);
  }

  /** What a reverse fetch within its budget holds: every candle of the store in the range closed by the cutoff. */
  lemma CompleteContents(server: Server, store: seq<Candle>, q: BybitOhlcv.Query, c: Candle)
    requires ServesNewestFirst(server, store) && Ascending(store)
    requires |BybitOhlcv.Available(store, q)| <= 10_000_000
    ensures BybitOhlcv.FetchAll(server, q).Ok?
    ensures var m := BybitOhlcv.FetchAll(server, q).value;
            c.open in m && m[c.open] == c
            <==> c in store && q.start <= c.open < q.end && c.open + 60_000 <= q.cutoff
  {
    WithinBudget(server, store, q);
    ClosedContents(store, q, c);
  }

  lemma WithinBudget(server: Server, store: seq<Candle>, q: BybitOhlcv.Query)
    requires ServesNewestFirst(server, store) && Ascending(store)
    requires |BybitOhlcv.Available(store, q)| <= 10_000_000
    ensures BybitOhlcv.FetchAll(server, q) == Ok(BybitOhlcv.ClosedMap(BybitOhlcv.Available(store, q), q))
  {
    BybitOhlcv.CompleteExactly(server, store, q);
  }

  /** What a forward fetch that returns holds: every candle of the store in the range that ended before its end. */
  lemma ForwardContents(server: Server, store: seq<Candle>, start: int, end: int, c: Candle)
    requires ServesOldestFirst(server, store) && MinuteSpaced(store)
    requires BinanceOhlcv.FetchAll(server, start, end).Ok?
    ensures c.open in BinanceOhlcv.FetchAll(server, start, end).value
            && BinanceOhlcv.FetchAll(server, start, end).value[c.open] == c
            <==> c in store && start <= c.open && c.close < end
  {
    BinanceOhlcv.CompleteOrSafetyLimit(server, store, start, end);
    BinanceOhlcv.AvailableShape(store, start, end);
    BinanceOhlcv.FinalMapEntries(Range(store, start, end), end);
    RangeMembers(store, start, end);
  }
}
