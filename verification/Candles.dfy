/** One-minute candles and the two kinds of paginating servers the fetch loops talk to. */
module Candles {
  import opened Common

  const INTERVAL_MS := 60_000
  const PAGE_LIMIT := 1000
  const PAGE_BUDGET := 10_000

  /** A kline row; two rows are the same candle only when every column agrees. */
  datatype Candle = Candle(open: int, close: int, data: string)

  datatype FetchError = Transport(code: int) | OutsidePage | ConflictingCandle | SafetyLimit

  datatype Response = Page(rows: seq<Candle>) | Refused(error: FetchError)

  /** What a server answers to request number `page` for opens in [lo, hi]; nothing else is known of it. */
  type Server = (nat, int, int) -> Response

  predicate Ascending(s: seq<Candle>) {
    forall i, j :: 0 <= i < j < |s| ==> s[i].open < s[j].open
  }

  function Range(store: seq<Candle>, lo: int, hi: int): seq<Candle> {
    if store == [] then []
    else (if lo <= store[0].open <= hi then [store[0]] else []) + Range(store[1..], lo, hi)
  }

  function Reverse(s: seq<Candle>): seq<Candle> {
    if s == [] then [] else Reverse(s[1..]) + [s[0]]
  }

  function First(s: seq<Candle>, n: nat): seq<Candle> {
    if |s| <= n then s else s[..n]
  }

  function Last(s: seq<Candle>, n: nat): seq<Candle> {
    if |s| <= n then s else s[|s| - n..]
  }

  /** Answers the newest `limit` candles of the range, newest first. */
  ghost predicate ServesNewestFirst(server: Server, store: seq<Candle>) {
    forall page, lo, hi :: server(page, lo, hi) == Page(Reverse(Last(Range(store, lo, hi), PAGE_LIMIT)))
  }

  /** Answers the oldest `limit` candles of the range, oldest first. */
  ghost predicate ServesOldestFirst(server: Server, store: seq<Candle>) {
    forall page, lo, hi :: server(page, lo, hi) == Page(First(Range(store, lo, hi), PAGE_LIMIT))
  }

  lemma {:induction false} RangeMembers(store: seq<Candle>, lo: int, hi: int)
    ensures forall c :: c in Range(store, lo, hi) <==> c in store && lo <= c.open <= hi
  {
    if store != [] {
      RangeMembers(store[1..], lo, hi);
      assert store == [store[0]] + store[1..];
    }
  }

  lemma {:induction false} RangeAscending(store: seq<Candle>, lo: int, hi: int)
    requires Ascending(store)
    ensures Ascending(Range(store, lo, hi))
  {
    if store != [] {
      RangeAscending(store[1..], lo, hi);
      RangeMembers(store[1..], lo, hi);
      var rest := Range(store[1..], lo, hi);
      forall j | 0 <= j < |rest|
        ensures store[0].open < rest[j].open
      {
        assert rest[j] in rest;
        var k :| 0 <= k < |store[1..]| && store[1..][k] == rest[j];
        assert store[k + 1] == rest[j];
      }
    }
  }

  lemma {:induction false} AscendingUnique(a: seq<Candle>, b: seq<Candle>)
    requires Ascending(a) && Ascending(b) && forall c :: c in a <==> c in b
    ensures a == b
  {
    assert a != [] ==> a[0] in a;
    assert b != [] ==> b[0] in b;
    if a != [] {
      assert a[0] == b[0];
      forall c
        ensures c in a[1..] <==> c in b[1..]
      {
        if c in a[1..] {
          assert c in a && c != a[0];
        }
        if c in b[1..] {
          assert c in b && c != b[0];
        }
      }
      AscendingUnique(a[1..], b[1..]);
    }
  }

  /** Narrowing the range from above at an available open cuts the available candles there. */
  lemma RangeBelow(store: seq<Candle>, lo: int, hi: int, k: nat)
    requires Ascending(store) && k < |Range(store, lo, hi)|
    ensures Range(store, lo, Range(store, lo, hi)[k].open - 1) == Range(store, lo, hi)[..k]
  {
    var avail, bound := Range(store, lo, hi), Range(store, lo, hi)[k].open - 1;
    RangeAscending(store, lo, hi);
    RangeAscending(store, lo, bound);
    RangeMembers(store, lo, hi);
    RangeMembers(store, lo, bound);
    assert avail[k] in avail;
    AscendingUnique(Range(store, lo, bound), avail[..k]);
  }

  /** Raising the lower bound past the first k candles, but not past the next, drops exactly those. */
  lemma RangeAbove(store: seq<Candle>, lo: int, hi: int, k: nat, newLo: int)
    requires Ascending(store) && k <= |Range(store, lo, hi)| && lo <= newLo
    requires k > 0 ==> Range(store, lo, hi)[k - 1].open < newLo
    requires k < |Range(store, lo, hi)| ==> newLo <= Range(store, lo, hi)[k].open
    ensures Range(store, newLo, hi) == Range(store, lo, hi)[k..]
  {
    RangeAscending(store, lo, hi);
    RangeAscending(store, newLo, hi);
    RangeMembers(store, lo, hi);
    RangeMembers(store, newLo, hi);
    AscendingUnique(Range(store, newLo, hi), Range(store, lo, hi)[k..]);
  }

  lemma {:induction false} ReverseElements(s: seq<Candle>)
    ensures |Reverse(s)| == |s| && forall i :: 0 <= i < |s| ==> Reverse(s)[i] == s[|s| - 1 - i]
  {
    if s != [] {
      ReverseElements(s[1..]);
    }
  }

  /** One-minute candles: opens at least a minute apart, each closing a millisecond before the next minute. */
  predicate MinuteSpaced(s: seq<Candle>) {
    && (forall i, j :: 0 <= i < j < |s| ==> s[i].open + INTERVAL_MS <= s[j].open)
    && (forall i :: 0 <= i < |s| ==> s[i].close == s[i].open + INTERVAL_MS - 1)
  }

  lemma RangeSpaced(store: seq<Candle>, lo: int, hi: int)
    requires MinuteSpaced(store)
    ensures Ascending(store) && MinuteSpaced(Range(store, lo, hi))
  {
    RangeAscending(store, lo, hi);
    RangeMembers(store, lo, hi);
    var s := Range(store, lo, hi);
    forall i | 0 <= i < |s|
      ensures s[i].close == s[i].open + INTERVAL_MS - 1
    {
      assert s[i] in s;
    }
    forall i, j | 0 <= i < j < |s|
      ensures s[i].open + INTERVAL_MS <= s[j].open
    {
      assert s[i] in s && s[j] in s;
    }
  }

  /** `[by_open[k] for k in sorted(by_open)]`. */
  method SortedByOpen(m: map<int, Candle>) returns (s: seq<Candle>)
    requires forall k :: k in m ==> m[k].open == k
    ensures Ascending(s)
    ensures forall c :: c in s <==> c.open in m && m[c.open] == c
  {
    s := [];
    var rest := m.Keys;
    while rest != {}
      invariant rest <= m.Keys && Ascending(s)
      invariant forall c :: c in s <==> c.open in m && c.open !in rest && m[c.open] == c
      invariant forall c, k :: c in s && k in rest ==> c.open < k
      decreases |rest|
    {
      var least := LeastKey(rest);
      forall i | 0 <= i < |s|
        ensures s[i].open < least
      {
        assert s[i] in s;
      }
      rest := rest - {least};
      s := s + [m[least]];
    }
  }

  method LeastKey(keys: set<int>) returns (least: int)
    requires keys != {}
    ensures least in keys && forall k :: k in keys ==> least <= k
  {
    least := Pick(keys);
    var rest := keys - {least};
    while rest != {}
      invariant rest <= keys && least in keys
      invariant forall k :: k in keys ==> k in rest || least <= k
      decreases |rest|
    {
      var k := Pick(rest);
      rest := rest - {k};
      if k < least {
        least := k;
      }
    }
  }
}
