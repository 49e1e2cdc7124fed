/** `fetch_final` of bybit/ohlcv.py: reverse pagination over a half-open range. */
module BybitOhlcv {
  import opened Common
  import opened Candles

  datatype Query = Query(start: int, end: int, cutoff: int)

  predicate Closed(c: Candle, q: Query) {
    c.open + INTERVAL_MS <= q.cutoff
  }

  /** The row loop of one page. */
  function Absorb(rows: seq<Candle>, q: Query, cursor: int, m: map<int, Candle>): Result<map<int, Candle>, FetchError> {
    if rows == [] then Ok(m)
    else
      var c := rows[0];
      if !(q.start <= c.open < cursor) then Err(OutsidePage)
      else if q.start <= c.open < q.end && Closed(c, q) then
        if c.open in m && m[c.open] != c then Err(ConflictingCandle)
        else Absorb(rows[1..], q, cursor, m[c.open := c])
      else Absorb(rows[1..], q, cursor, m)
  }

  function Oldest(rows: seq<Candle>): int
    requires rows != []
  {
    if |rows| == 1 then rows[0].open
    else if rows[0].open < Oldest(rows[1..]) then rows[0].open else Oldest(rows[1..])
  }

  /** The page loop from page number `page` on; running out of pages is not an error. */
  function Fetch(server: Server, q: Query, page: nat, cursor: int, m: map<int, Candle>)
      : Result<map<int, Candle>, FetchError>
    requires page <= PAGE_BUDGET
    decreases PAGE_BUDGET - page
  {
    if page == PAGE_BUDGET then Ok(m)
    else
      match server(page, q.start, cursor - 1)
      case Refused(e) => Err(e)
      case Page(rows) =>
        if rows == [] then Ok(m)
        else
          var absorbed := Absorb(rows, q, cursor, m);
          if absorbed.Err? || Oldest(rows) <= q.start then absorbed
          else Fetch(server, q, page + 1, Oldest(rows), absorbed.value)
  }

  function FetchAll(server: Server, q: Query): Result<map<int, Candle>, FetchError> {
    Fetch(server, q, 0, q.end, map[])
  }

  // ---------------------------------------------------------------- against any server

  predicate Wanted(c: Candle, q: Query) {
    q.start <= c.open < q.end && Closed(c, q)
  }

  predicate Collected(m: map<int, Candle>, q: Query) {
    forall k :: k in m ==> m[k].open == k && Wanted(m[k], q)
  }

  lemma {:induction false} AbsorbCollects(rows: seq<Candle>, q: Query, cursor: int, m: map<int, Candle>)
    requires Collected(m, q)
    ensures Absorb(rows, q, cursor, m).Ok? ==>
              && Collected(Absorb(rows, q, cursor, m).value, q)
              && (rows != [] ==> q.start <= Oldest(rows) < cursor)
  {
    if rows != [] && q.start <= rows[0].open < cursor {
      if Wanted(rows[0], q) {
        AbsorbCollects(rows[1..], q, cursor, m[rows[0].open := rows[0]]);
      } else {
        AbsorbCollects(rows[1..], q, cursor, m);
      }
    }
  }

  /** Whatever the server answers, only closed candles of the half-open range are collected. */
  lemma {:induction false} FetchCollects(server: Server, q: Query, page: nat, cursor: int, m: map<int, Candle>)
    requires page <= PAGE_BUDGET && Collected(m, q)
    ensures Fetch(server, q, page, cursor, m).Ok? ==> Collected(Fetch(server, q, page, cursor, m).value, q)
    decreases PAGE_BUDGET - page
  {
    if page < PAGE_BUDGET && server(page, q.start, cursor - 1).Page? {
      var rows := server(page, q.start, cursor - 1).rows;
      AbsorbCollects(rows, q, cursor, m);
      if rows != [] && Absorb(rows, q, cursor, m).Ok? && Oldest(rows) > q.start {
        FetchCollects(server, q, page + 1, Oldest(rows), Absorb(rows, q, cursor, m).value);
      }
    }
  }

  /** The loops of the source.  `cursors` records the upper bounds requested; they strictly decrease, so the
      source's "did not advance" error cannot be raised. */
  method FetchFinal(server: Server, q: Query) returns (r: Result<seq<Candle>, FetchError>, ghost cursors: seq<int>)
    ensures r.Ok? <==> FetchAll(server, q).Ok?
    ensures r.Err? ==> r.error == FetchAll(server, q).error
    ensures r.Ok? ==>
              && Ascending(r.value)
              && (forall c :: c in r.value ==> q.start <= c.open < q.end && c.open + 60_000 <= q.cutoff)
              && (forall c :: c in r.value <==> c.open in FetchAll(server, q).value
                                                && FetchAll(server, q).value[c.open] == c)
    ensures |cursors| <= 10_000
    ensures forall i, j :: 0 <= i < j < |cursors| ==> cursors[i] > cursors[j]
  {
    var cursor, page := q.end, 0;
    var byOpen: map<int, Candle> := map[];
    cursors := [];
    FetchCollects(server, q, 0, q.end, map[]);
    while page < PAGE_BUDGET
      invariant |cursors| == page <= PAGE_BUDGET && Collected(byOpen, q)
      invariant FetchAll(server, q) == Fetch(server, q, page, cursor, byOpen)
      invariant forall i, j :: 0 <= i < j < |cursors| ==> cursors[i] > cursors[j]
      invariant forall i :: 0 <= i < |cursors| ==> cursors[i] > cursor
      decreases PAGE_BUDGET - page
    {
      cursors := cursors + [cursor];
      var response := server(page, q.start, cursor - 1);
      if response.Refused? {
        return Err(response.error), cursors;
      }
      var values := response.rows;
      if values == [] {
        break;
      }
      AbsorbCollects(values, q, cursor, byOpen);
      var absorbed, oldest := AbsorbPage(values, q, cursor, byOpen);
      if absorbed.Err? {
        return Err(absorbed.error), cursors;
      }
      byOpen := absorbed.value;
      if oldest <= q.start {
        break;
      }
      cursor := oldest;
      page := page + 1;
    }
    var s := SortedByOpen(byOpen);
    assert forall c :: c in s ==> Wanted(byOpen[c.open], q);
    r := Ok(s);
  }

  method AbsorbPage(rows: seq<Candle>, q: Query, cursor: int, m: map<int, Candle>)
      returns (r: Result<map<int, Candle>, FetchError>, oldest: int)
    requires rows != []
    ensures r == Absorb(rows, q, cursor, m)
    ensures r.Ok? ==> oldest == Oldest(rows)
  {
    var byOpen := m;
    oldest := rows[0].open;
    for i := 0 to |rows|
      invariant Absorb(rows, q, cursor, m) == Absorb(rows[i..], q, cursor, byOpen)
      invariant i < |rows| ==> Oldest(rows) == (if oldest < Oldest(rows[i..]) then oldest else Oldest(rows[i..]))
      invariant i == |rows| ==> Oldest(rows) == oldest
    {
      var c := rows[i];
      if !(q.start <= c.open < cursor) {
        return Err(OutsidePage), oldest;
      }
      if c.open < oldest {
        oldest := c.open;
      }
      if q.start <= c.open < q.end && Closed(c, q) {
        if c.open in byOpen && byOpen[c.open] != c {
          return Err(ConflictingCandle), oldest;
        }
        byOpen := byOpen[c.open := c];
      }
      assert rows[i..][1..] == rows[i + 1..];
    }
    return Ok(byOpen), oldest;
  }

  // ---------------------------------------------------------------- against an honest server

  /** The dictionary of the candles of `s` that are closed by the cutoff. */
  function ClosedMap(s: seq<Candle>, q: Query): map<int, Candle> {
    if s == [] then map[]
    else if Closed(s[0], q) then ClosedMap(s[1..], q)[s[0].open := s[0]]
    else ClosedMap(s[1..], q)
  }

  lemma {:induction false} ClosedMapEntries(s: seq<Candle>, q: Query)
    requires Ascending(s)
    ensures forall k :: k in ClosedMap(s, q) ==>
        ClosedMap(s, q)[k].open == k && ClosedMap(s, q)[k] in s && Closed(ClosedMap(s, q)[k], q)
    ensures forall c :: c in s && Closed(c, q) ==> c.open in ClosedMap(s, q) && ClosedMap(s, q)[c.open] == c
  {
    if s != [] {
      ClosedMapEntries(s[1..], q);
      assert s == [s[0]] + s[1..];
      forall c | c in s[1..]
        ensures s[0].open < c.open
      {
        var i :| 0 <= i < |s[1..]| && s[1..][i] == c;
        assert s[i + 1] == c;
      }
    }
  }

  lemma AbsorbOne(init: seq<Candle>, c: Candle, q: Query, cursor: int, newer: seq<Candle>)
    requires Ascending([c] + newer) && q.start <= c.open < cursor <= q.end
    ensures Absorb([c] + Reverse(init), q, cursor, ClosedMap(newer, q))
            == Absorb(Reverse(init), q, cursor, ClosedMap([c] + newer, q))
  {
    assert Ascending(newer) && forall i :: 0 <= i < |newer| ==> c.open < newer[i].open by {
      forall i | 0 <= i < |newer|
        ensures newer[i] == ([c] + newer)[i + 1]
      {
      }
    }
    ClosedMapEntries(newer, q);
    assert ([c] + newer)[1..] == newer;
    assert ([c] + Reverse(init))[1..] == Reverse(init);
    assert c.open !in ClosedMap(newer, q);
  }

  lemma {:induction false} ReverseSplit(s: seq<Candle>)
    requires s != []
    ensures Reverse(s) == [s[|s| - 1]] + Reverse(s[..|s| - 1])
  {
    if |s| == 1 {
      assert Reverse(s[1..]) == [] && Reverse(s[..0]) == [];
    } else {
      var tail, init := s[1..], s[..|s| - 1];
      ReverseSplit(tail);
      assert tail[..|tail| - 1] == init[1..];
      assert Reverse(init) == Reverse(init[1..]) + [s[0]];
    }
  }

  lemma {:induction false} AbsorbReversed(s: seq<Candle>, q: Query, cursor: int, newer: seq<Candle>)
    requires Ascending(s + newer) && cursor <= q.end
    requires forall i :: 0 <= i < |s| ==> q.start <= s[i].open < cursor
    ensures Absorb(Reverse(s), q, cursor, ClosedMap(newer, q)) == Ok(ClosedMap(s + newer, q))
  {
    if s == [] {
      assert s + newer == newer;
    } else {
      var init, c := s[..|s| - 1], s[|s| - 1];
      assert s + newer == init + ([c] + newer);
      assert (s + newer)[|init|..] == [c] + newer;
      ReverseSplit(s);
      AbsorbOne(init, c, q, cursor, newer);
      AbsorbReversed(init, q, cursor, [c] + newer);
    }
  }

  lemma {:induction false} OldestReversed(s: seq<Candle>)
    requires s != [] && Ascending(s)
    ensures Reverse(s) != [] && Oldest(Reverse(s)) == s[0].open
  {
    ReverseElements(s);
    if |s| > 1 {
      var init := s[..|s| - 1];
      ReverseElements(init);
      OldestReversed(init);
      assert Reverse(s)[1..] == Reverse(init);
    }
  }

  /** With `k` candles of the range still unseen at page `page`, how many remain unseen at the end. */
  function Missed(k: nat, page: nat): nat
    requires page <= PAGE_BUDGET
  {
    if k <= PAGE_LIMIT * (PAGE_BUDGET - page) then 0 else k - PAGE_LIMIT * (PAGE_BUDGET - page)
  }

  function Available(store: seq<Candle>, q: Query): seq<Candle> {
    Range(store, q.start, q.end - 1)
  }

  function Cursor(avail: seq<Candle>, q: Query, k: nat): int
    requires k <= |avail|
  {
    if k == |avail| then q.end else avail[k].open
  }

  lemma AvailableShape(store: seq<Candle>, q: Query)
    requires Ascending(store)
    ensures Ascending(Available(store, q))
    ensures forall i :: 0 <= i < |Available(store, q)| ==> q.start <= Available(store, q)[i].open < q.end
  {
    RangeAscending(store, q.start, q.end - 1);
    RangeMembers(store, q.start, q.end - 1);
    var avail := Available(store, q);
    forall i | 0 <= i < |avail|
      ensures q.start <= avail[i].open < q.end
    {
      assert avail[i] in avail;
    }
  }

  /** What the honest server answers when `k` candles are unseen: the newest thousand of them, newest first. */
  lemma HonestPage(server: Server, store: seq<Candle>, q: Query, page: nat, k: nat)
    requires ServesNewestFirst(server, store) && Ascending(store) && k <= |Available(store, q)|
    ensures var avail := Available(store, q);
            server(page, q.start, Cursor(avail, q, k) - 1)
            == Page(Reverse(avail[if k <= PAGE_LIMIT then 0 else k - PAGE_LIMIT..k]))
  {
    var avail := Available(store, q);
    if k < |avail| {
      RangeBelow(store, q.start, q.end - 1, k);
    } else {
      assert avail[..k] == avail;
    }
    assert Last(avail[..k], PAGE_LIMIT) == avail[if k <= PAGE_LIMIT then 0 else k - PAGE_LIMIT..k];
  }

  lemma HonestAbsorb(avail: seq<Candle>, q: Query, j: nat, k: nat)
    requires Ascending(avail) && j < k <= |avail|
    requires forall i :: 0 <= i < |avail| ==> q.start <= avail[i].open < q.end
    ensures Reverse(avail[j..k]) != [] && Oldest(Reverse(avail[j..k])) == avail[j].open
    ensures Absorb(Reverse(avail[j..k]), q, Cursor(avail, q, k), ClosedMap(avail[k..], q))
        == Ok(ClosedMap(avail[j..], q))
  {
    var s := avail[j..k];
    assert s + avail[k..] == avail[j..];
    AbsorbReversed(s, q, Cursor(avail, q, k), avail[k..]);
    OldestReversed(s);
  }

  /** The fetch from page number `page` on, with all but the `k` oldest candles of the range seen. */
  function Stage(server: Server, avail: seq<Candle>, q: Query, page: nat, k: nat): Result<map<int, Candle>, FetchError>
    requires page <= PAGE_BUDGET && k <= |avail|
  {
    Fetch(server, q, page, Cursor(avail, q, k), ClosedMap(avail[k..], q))
  }

  function Unseen(k: nat): nat {
    if k <= PAGE_LIMIT then 0 else k - PAGE_LIMIT
  }

  /** One honest page: the thousand newest unseen candles are absorbed, or nothing was left. */
  lemma HonestStep(server: Server, store: seq<Candle>, q: Query, page: nat, k: nat)
    requires ServesNewestFirst(server, store) && Ascending(store)
    requires page < PAGE_BUDGET && 0 < k <= |Available(store, q)|
    ensures var avail := Available(store, q);
            Stage(server, avail, q, page, k)
            == if avail[Unseen(k)].open <= q.start then Ok(ClosedMap(avail[Unseen(k)..], q))
               else Stage(server, avail, q, page + 1, Unseen(k))
  {
    AvailableShape(store, q);
    HonestPage(server, store, q, page, k);
    HonestAbsorb(Available(store, q), q, Unseen(k), k);
  }

  lemma NoPageLeft(server: Server, store: seq<Candle>, q: Query, page: nat)
    requires ServesNewestFirst(server, store) && Ascending(store) && page < PAGE_BUDGET
    ensures Stage(server, Available(store, q), q, page, 0) == Ok(ClosedMap(Available(store, q)[0..], q))
  {
    HonestPage(server, store, q, page, 0);
  }

  lemma StartIsOldest(store: seq<Candle>, q: Query, j: nat)
    requires Ascending(store) && j < |Available(store, q)|
    ensures Available(store, q)[j].open <= q.start ==> j == 0
  {
    AvailableShape(store, q);
    assert j > 0 ==> q.start <= Available(store, q)[0].open < Available(store, q)[j].open;
  }

  /** The candles collected by the end: all but the missed ones. */
  function Settled(avail: seq<Candle>, q: Query, page: nat, k: nat): Result<map<int, Candle>, FetchError>
    requires page <= PAGE_BUDGET && k <= |avail|
  {
    Ok(ClosedMap(avail[Missed(k, page)..], q))
  }

  lemma BudgetSpent(server: Server, avail: seq<Candle>, q: Query, page: nat, k: nat)
    requires page == PAGE_BUDGET && k <= |avail|
    ensures Stage(server, avail, q, page, k) == Settled(avail, q, page, k)
  {
  }

  /** The last honest page: it holds everything unseen, and the next request would find nothing. */
  lemma LastPage(server: Server, store: seq<Candle>, q: Query, page: nat, k: nat)
    requires ServesNewestFirst(server, store) && Ascending(store)
    requires page < PAGE_BUDGET && k <= |Available(store, q)|
    requires k == 0 || Available(store, q)[Unseen(k)].open <= q.start
    ensures Stage(server, Available(store, q), q, page, k) == Settled(Available(store, q), q, page, k)
  {
    if k == 0 {
      NoPageLeft(server, store, q, page);
    } else {
      StartIsOldest(store, q, Unseen(k));
      HonestStep(server, store, q, page, k);
    }
  }

  lemma MiddlePage(server: Server, store: seq<Candle>, q: Query, page: nat, k: nat)
    requires ServesNewestFirst(server, store) && Ascending(store)
    requires page < PAGE_BUDGET && 0 < k <= |Available(store, q)|
    requires Available(store, q)[Unseen(k)].open > q.start
    ensures Stage(server, Available(store, q), q, page, k) == Stage(server, Available(store, q), q, page + 1, Unseen(k))
    ensures Settled(Available(store, q), q, page, k) == Settled(Available(store, q), q, page + 1, Unseen(k))
  {
    HonestStep(server, store, q, page, k);
  }

  lemma {:induction false} HonestFetch(server: Server, store: seq<Candle>, q: Query, page: nat, k: nat)
    requires ServesNewestFirst(server, store) && Ascending(store)
    requires page <= PAGE_BUDGET && k <= |Available(store, q)|
    ensures Stage(server, Available(store, q), q, page, k) == Settled(Available(store, q), q, page, k)
    decreases PAGE_BUDGET - page
  {
    if page == PAGE_BUDGET {
      BudgetSpent(server, Available(store, q), q, page, k);
    } else if k == 0 || Available(store, q)[Unseen(k)].open <= q.start {
      LastPage(server, store, q, page, k);
    } else {
      MiddlePage(server, store, q, page, k);
      HonestFetch(server, store, q, page + 1, Unseen(k));
    }
  }

  lemma NothingClosed(s: seq<Candle>, q: Query)
    requires Ascending(s) && forall i :: 0 <= i < |s| ==> !Closed(s[i], q)
    ensures ClosedMap(s, q) == map[]
  {
    if s != [] {
      NothingClosed(s[1..], q);
    }
  }

  lemma OldestIsMissed(avail: seq<Candle>, q: Query, missed: nat)
    requires Ascending(avail) && 0 < missed <= |avail| && Closed(avail[0], q)
    ensures ClosedMap(avail, q) != ClosedMap(avail[missed..], q)
  {
    var rest := avail[missed..];
    ClosedMapEntries(avail, q);
    ClosedMapEntries(rest, q);
    assert avail[0] in avail;
    forall i | 0 <= i < |rest|
      ensures avail[0].open < rest[i].open
    {
      assert rest[i] == avail[missed + i];
    }
    assert avail[0].open !in ClosedMap(rest, q);
  }

  lemma TailIsAllExactly(avail: seq<Candle>, q: Query, missed: nat)
    requires Ascending(avail) && missed <= |avail|
    ensures ClosedMap(avail[missed..], q) == ClosedMap(avail, q) <==> missed == 0 || !Closed(avail[0], q)
  {
    if missed == 0 {
      assert avail[0..] == avail;
    } else if Closed(avail[0], q) {
      OldestIsMissed(avail, q, missed);
    } else {
      forall i | 0 <= i < |avail|
        ensures avail[0].open <= avail[i].open
      {
      }
      NothingClosed(avail, q);
      NothingClosed(avail[missed..], q);
    }
  }

  lemma FetchedIsTail(server: Server, store: seq<Candle>, q: Query)
    requires ServesNewestFirst(server, store) && Ascending(store)
    ensures Missed(|Available(store, q)|, 0) <= |Available(store, q)|
    ensures FetchAll(server, q) == Ok(ClosedMap(Available(store, q)[Missed(|Available(store, q)|, 0)..], q))
  {
    var avail := Available(store, q);
    assert avail[|avail|..] == [];
    HonestFetch(server, store, q, 0, |avail|);
  }

  /** Main result: against an honest server the fetch returns every closed candle of the range exactly when the
      range holds at most 1000 candles for each of the 10000 pages, or nothing in it is closed. */
  lemma CompleteExactly(server: Server, store: seq<Candle>, q: Query)
    requires ServesNewestFirst(server, store) && Ascending(store)
    ensures FetchAll(server, q).Ok?
    ensures FetchAll(server, q).value == ClosedMap(Available(store, q), q)
            <==> |Available(store, q)| <= PAGE_LIMIT * PAGE_BUDGET || !Closed(Available(store, q)[0], q)
  {
    var avail := Available(store, q);
    AvailableShape(store, q);
    FetchedIsTail(server, store, q);
    TailIsAllExactly(avail, q, Missed(|avail|, 0));
  }
}
