/** `perform_gap_recovery` of realtime_recovery.py: bounded REST paging and what it proves. */
module GapRecovery {
  import opened Common
  import opened GapRegistry
  import opened TradeContinuity

  const PAGE_LIMIT := 1000
  const MAX_PAGES := 10

  /** The answer to one request: a status-200 item list, another status, or an exception. */
  datatype Reply = Items(items: seq<Item>) | NotOk | Throws

  /** The two Binance endpoints paged by id.  An individual trade carries "id", an aggregate one "a". */
  datatype Endpoint = Individual | Aggregate

  function Key(item: Item, endpoint: Endpoint): Field {
    if endpoint == Individual then item.id else item.a
  }

  /** What the exchange answers to request number `page`, asked from `fromId` if one is sent. */
  type Server = (nat, Option<int>) -> Reply

  /** The servers a recovery may call: the exchange's endpoint, and the one tried when it answers an error. */
  datatype Rest = Rest(main: Server, fallback: nat -> Reply)

  /** One request; only individual trades have a fallback. */
  function Request(rest: Rest, endpoint: Endpoint, page: nat, fromId: Option<int>): Reply {
    var sent := if fromId.Some? && fromId.value != 0 then fromId else None;
    var reply := rest.main(page, sent);
    if reply.NotOk? && endpoint == Individual then rest.fallback(page) else reply
  }

  datatype Paged = Paged(items: seq<Item>, pages: nat, raised: bool)

  predicate TargetReached(target: Option<int>, last: int) {
    target.Some? && target.value != 0 && last >= target.value - 1
  }

  /** What follows the answer to request number `pages`: leave the loop, or ask again from an id. */
  datatype Turn = Leave(raised: bool, items: seq<Item>) | Again(fromId: int, items: seq<Item>)

  function TurnAfter(reply: Reply, endpoint: Endpoint, target: Option<int>, pages: nat, items: seq<Item>): Turn {
    match reply
    case Throws => Leave(true, items)
    case NotOk => Leave(false, items)
    case Items(more) =>
      if more == [] then Leave(false, items)
      else
        var last := Key(more[|more| - 1], endpoint);
        if !last.Numeric() then Leave(true, items + more)   // int() raises
        else if TargetReached(target, last.value) || |more| < PAGE_LIMIT || pages >= MAX_PAGES then
          Leave(false, items + more)
        else Again(last.value + 1, items + more)
  }

  /** The `while True` loop, `pages` requests in. */
  function FetchPages(rest: Rest, endpoint: Endpoint, fromId: Option<int>, target: Option<int>, pages: nat,
                      items: seq<Item>): (r: Paged)
    requires pages < MAX_PAGES
    ensures pages < r.pages <= MAX_PAGES
    decreases MAX_PAGES - pages, target, items   // a literal page number alone would be unfolded to the end
  {
    match TurnAfter(Request(rest, endpoint, pages, fromId), endpoint, target, pages + 1, items)
    case Leave(raised, all) => Paged(all, pages + 1, raised)
    case Again(from, all) => FetchPages(rest, endpoint, Some(from), target, pages + 1, all)
  }

  function FetchAll(rest: Rest, endpoint: Endpoint, fromId: Option<int>, target: Option<int>): (r: Paged)
    ensures r.pages <= MAX_PAGES
  {
    FetchPages(rest, endpoint, fromId, target, 0, [])
  }

  method FetchLoop(rest: Rest, endpoint: Endpoint, fromId: Option<int>, target: Option<int>) returns (r: Paged)
    ensures r == FetchAll(rest, endpoint, fromId, target)
  {
    var from, items, pages := fromId, [], 0;
    while true
      invariant 0 <= pages < MAX_PAGES
      invariant FetchAll(rest, endpoint, fromId, target) == FetchPages(rest, endpoint, from, target, pages, items)
      decreases MAX_PAGES - pages
    {
      var reply := Request(rest, endpoint, pages, from);
      pages := pages + 1;
      var turn := TurnAfter(reply, endpoint, target, pages, items);
      items := turn.items;
      if turn.Leave? {
        return Paged(items, pages, turn.raised);
      }
      from := Some(turn.fromId);
    }
  }

  // ---------------------------------------------------------------- one recovery

  predicate Blank(id: TradeId) {
    id.NoId? || id.EmptyId?
  }

  function EndpointLimit(f: Facts): nat {
    if f.exchange == "bybit" && f.marketType == "spot" then 60 else 1000
  }

  predicate Supported(f: Facts) {
    f.datasetClass == "individual_trade" || f.datasetClass == "exchange_aggregate_trade"
  }

  function EndpointOf(f: Facts): Endpoint {
    if f.datasetClass == "individual_trade" then Individual else Aggregate
  }

  /** Everything outside: a fixture passed instead of calling anyone, Binance, and Bybit's recent trades. */
  datatype World = World(fixture: Option<seq<Item>>, binance: Rest, bybit: Reply)

  datatype Collected = Collected(items: seq<Item>, pages: nat, proven: bool, method_: Option<CoverageMethod>)

  function Sequence(proven: bool): Option<CoverageMethod> {
    if proven then Some(TradeIdSequenceComplete) else None
  }

  function FromBinance(f: Facts, rest: Rest): Collected {
    if f.preId.IdText? || f.postId.IdText? then Collected([], 0, false, None)   // int() raises
    else
      var from := if Blank(f.preId) then None else Some(f.preId.value + 1);
      var target := if Blank(f.postId) then None else Some(f.postId.value);
      var paged := FetchAll(rest, EndpointOf(f), from, target);
      var proven := !paged.raised && ContinuityProven(f.preId, f.postId, paged.items);
      Collected(paged.items, paged.pages, proven, Sequence(proven))
  }

  function FromBybit(f: Facts, reply: Reply): Collected {
    if !reply.Items? then Collected([], 1, false, None)
    else if 0 < |reply.items| < EndpointLimit(f) then Collected(reply.items, 1, true, Some(RecentTradeWindowBounded))
    else Collected(reply.items, 1, false, None)
  }

  function FromFixture(f: Facts, items: seq<Item>): Collected {
    if ContinuityProven(f.preId, f.postId, items) then Collected(items, 1, true, Some(TradeIdSequenceComplete))
    else if |items| < EndpointLimit(f) && Blank(f.preId) then Collected(items, 1, true, Some(TimestampRangeBounded))
    else Collected(items, 1, false, None)
  }

  function Collect(f: Facts, world: World): Collected {
    if world.fixture.Some? then FromFixture(f, world.fixture.value)
    else if f.exchange == "binance" then FromBinance(f, world.binance)
    else if f.exchange == "bybit" then FromBybit(f, world.bybit)
    else Collected([], 0, false, None)
  }

  /** The gap after a recovery attempt. */
  function Attempted(e: Entry, world: World): Entry {
    if !Supported(e.facts) then
      e.(status := Unrecoverable, recovery := e.recovery.(attempted := true, proven := false))
    else
      var c := Collect(e.facts, world);
      var r := e.recovery.(attempted := true, records := |c.items|, pages := c.pages,
          limit := Some(EndpointLimit(e.facts)));
      if c.items == [] then e.(status := Unrecoverable, recovery := r.(proven := false))
      else
        e.(status := if c.proven then Recovered else Partial,
           recovery := r.(proven := c.proven, method_ := c.method_))
  }

  method CollectItems(f: Facts, world: World) returns (c: Collected)
    ensures c == Collect(f, world)
  {
    if world.fixture.Some? {
      c := FromFixture(f, world.fixture.value);
    } else if f.exchange == "binance" {
      if f.preId.IdText? || f.postId.IdText? {
        return Collected([], 0, false, None);
      }
      var from := if Blank(f.preId) then None else Some(f.preId.value + 1);
      var target := if Blank(f.postId) then None else Some(f.postId.value);
      var paged := FetchLoop(world.binance, EndpointOf(f), from, target);
      var proven := !paged.raised && ContinuityProven(f.preId, f.postId, paged.items);
      c := Collected(paged.items, paged.pages, proven, Sequence(proven));
    } else if f.exchange == "bybit" {
      c := FromBybit(f, world.bybit);
    } else {
      c := Collected([], 0, false, None);
    }
  }

  /** The gap record is updated in place and its new state is appended to the registry. */
  method PerformGapRecovery(gap: GapRecord, world: World, registry: Registry)
    requires registry.Valid() && gap.id < registry.minted
    modifies gap, registry
    ensures registry.Valid()
    ensures gap.Snapshot() == Attempted(old(gap.Snapshot()), world)
    ensures registry.log == old(registry.log) + [gap.Snapshot()]
  {
    gap.recoveryAttempted := true;
    if !Supported(gap.facts) {
      gap.status := Unrecoverable;
      gap.coverageProven := false;
      registry.UpdateGap(gap);
      return;
    }
    var limit := EndpointLimit(gap.facts);
    var c := CollectItems(gap.facts, world);
    gap.recordsRecovered := |c.items|;
    gap.pagesRequested := c.pages;
    gap.endpointLimit := Some(limit);
    if |c.items| > 0 {
      if |c.items| == limit && !c.proven {
        gap.status := Partial;
      } else if c.proven {
        gap.status := Recovered;
      } else {
        gap.status := Partial;
      }
      gap.coverageProven := c.proven;
      gap.coverageMethod := c.method_;
    } else {
      gap.status := Unrecoverable;
      gap.coverageProven := false;
    }
    registry.UpdateGap(gap);
  }

  // ---------------------------------------------------------------- soundness

  /** RECOVERED and proven coverage are the same thing; a gap is given up exactly when nothing was fetched for it. */
  lemma RecoveredIffProven(e: Entry, world: World)
    ensures var r := Attempted(e, world);
            && (r.status == Recovered <==> r.recovery.proven)
            && (r.status == Unrecoverable <==> !Supported(e.facts) || Collect(e.facts, world).items == [])
            && r.status != Open && r.status != Unknown && r.recovery.attempted
            && r.id == e.id && r.facts == e.facts
  {
  }

  /** Recovered by trade ids: every id strictly between the recorded edges was fetched. */
  lemma SequenceCompleteHasNoHole(e: Entry, world: World, tradeId: int)
    requires Attempted(e, world).status == Recovered
    requires Attempted(e, world).recovery.method_ == Some(TradeIdSequenceComplete)
    ensures e.facts.preId.IdNumber? && e.facts.postId.IdNumber?
    ensures e.facts.preId.value < tradeId < e.facts.postId.value ==> Fetched(Collect(e.facts, world).items, tradeId)
  {
    ProvenHasNoHole(e.facts.preId, e.facts.postId, Collect(e.facts, world).items, tradeId);
  }

  predicate WithinLimit(r: Reply) {
    r.Items? ==> |r.items| <= 1000
  }

  ghost predicate HonoursLimit(rest: Rest) {
    && (forall page, from :: WithinLimit(rest.main(page, from)))
    && (forall page :: WithinLimit(rest.fallback(page)))
  }

  lemma {:induction false} PagesBoundItems(rest: Rest, endpoint: Endpoint, fromId: Option<int>, target: Option<int>,
                                           pages: nat, items: seq<Item>)
    requires HonoursLimit(rest) && pages < MAX_PAGES && |items| <= PAGE_LIMIT * pages
    ensures |FetchPages(rest, endpoint, fromId, target, pages, items).items| <= PAGE_LIMIT * MAX_PAGES
    decreases MAX_PAGES - pages
  {
    var reply := Request(rest, endpoint, pages, fromId);
    assert WithinLimit(reply);
    if reply.Items? && reply.items != [] {
      var last := Key(reply.items[|reply.items| - 1], endpoint);
      if last.Numeric() && pages + 1 < MAX_PAGES {
        PagesBoundItems(rest, endpoint, Some(last.value + 1), target, pages + 1, items + reply.items);
      }
    }
  }

  lemma FetchAllBounded(rest: Rest, endpoint: Endpoint, fromId: Option<int>, target: Option<int>)
    requires HonoursLimit(rest)
    ensures |FetchAll(rest, endpoint, fromId, target).items| <= PAGE_LIMIT * MAX_PAGES
  {
    var pages: nat, items: seq<Item> := 0, [];
    PagesBoundItems(rest, endpoint, fromId, target, pages, items);
  }

  /** Live recovery from Binance with both edges recorded as numbers. */
  predicate LiveBinance(e: Entry, world: World) {
    && Supported(e.facts) && e.facts.exchange == "binance" && world.fixture.None?
    && e.facts.preId.IdNumber? && e.facts.postId.IdNumber?
  }

  /** Main result, one half: no server that honours the page limit makes a larger gap count as recovered. */
  lemma LargerGapsAreNeverRecovered(e: Entry, world: World)
    requires LiveBinance(e, world) && HonoursLimit(world.binance)
    requires Attempted(e, world).status == Recovered
    ensures e.facts.postId.value - e.facts.preId.value - 1 <= 10_000
  {
    FetchAllBounded(world.binance, EndpointOf(e.facts), Some(e.facts.preId.value + 1), Some(e.facts.postId.value));
    ProvenNeedsEnoughItems(e.facts.preId.value, e.facts.postId.value, Collect(e.facts, world).items);
  }

  // ---------------------------------------------------------------- completeness

  function TradeItem(tradeId: int, endpoint: Endpoint): Item {
    if endpoint == Individual then Item(Number(tradeId), Missing, Missing, Missing)
    else Item(Missing, Number(tradeId), Missing, Missing)
  }

  /** The `n` trades from id `from` on, without a hole. */
  function Trades(from: int, n: nat, endpoint: Endpoint): seq<Item> {
    seq(n, i => TradeItem(from + i, endpoint))
  }

  function PageSize(from: int, top: int): nat {
    if from + PAGE_LIMIT <= top + 1 then PAGE_LIMIT else if from <= top then top + 1 - from else 0
  }

  /** Answers the next thousand trades up to the newest, `top`. */
  ghost predicate Honest(rest: Rest, endpoint: Endpoint, top: int) {
    forall page, from :: from > 0 ==> rest.main(page, Some(from)) == Items(Trades(from, PageSize(from, top), endpoint))
  }

  lemma TradesAt(from: int, n: nat, endpoint: Endpoint, k: nat)
    requires k < n
    ensures Trades(from, n, endpoint)[k] == TradeItem(from + k, endpoint)
  {
  }

  /** `items` are the first `m` trades of the gap and reach its end, or fill all ten pages without reaching it. */
  predicate Settled(items: seq<Item>, m: nat, pre: int, post: int, endpoint: Endpoint) {
    && items == Trades(pre + 1, m, endpoint) && m > 0
    && (m >= post - pre - 1 || m == PAGE_LIMIT * MAX_PAGES)
  }

  lemma HonestPage(rest: Rest, endpoint: Endpoint, top: int, pre: int, pages: nat)
    requires Honest(rest, endpoint, top) && pre >= 0 && pages < MAX_PAGES && pre + 1 + PAGE_LIMIT * pages <= top
    ensures var from := pre + 1 + PAGE_LIMIT * pages;
            && PageSize(from, top) > 0
            && Request(rest, endpoint, pages, Some(from)) == Items(Trades(from, PageSize(from, top), endpoint))
            && Key(Trades(from, PageSize(from, top), endpoint)[PageSize(from, top) - 1], endpoint)
               == Number(from + PageSize(from, top) - 1)
            && Trades(pre + 1, PAGE_LIMIT * pages, endpoint) + Trades(from, PageSize(from, top), endpoint)
               == Trades(pre + 1, PAGE_LIMIT * pages + PageSize(from, top), endpoint)
  {
    var from := pre + 1 + PAGE_LIMIT * pages;
    TradesAt(from, PageSize(from, top), endpoint, PageSize(from, top) - 1);
  }

  predicate Completed(r: Paged, m: nat, pre: int, post: int, endpoint: Endpoint) {
    !r.raised && Settled(r.items, m, pre, post, endpoint) && m <= PAGE_LIMIT * MAX_PAGES
  }

  /** Where the paging stands after `pages` full pages from an honest server. */
  predicate LastTurn(top: int, pre: int, post: int, pages: nat) {
    var from := pre + 1 + PAGE_LIMIT * pages;
    from + PageSize(from, top) >= post || PageSize(from, top) < PAGE_LIMIT || pages + 1 >= MAX_PAGES
  }

  lemma HonestTurn(rest: Rest, endpoint: Endpoint, top: int, pre: int, post: int, pages: nat)
    requires Honest(rest, endpoint, top) && 0 <= pre < post <= top && pages < MAX_PAGES
    requires pre + 1 + PAGE_LIMIT * pages <= post
    ensures var from := pre + 1 + PAGE_LIMIT * pages;
            var all := Trades(pre + 1, PAGE_LIMIT * pages + PageSize(from, top), endpoint);
            TurnAfter(Request(rest, endpoint, pages, Some(from)), endpoint, Some(post), pages + 1,
                      Trades(pre + 1, PAGE_LIMIT * pages, endpoint))
            == if LastTurn(top, pre, post, pages) then Leave(false, all) else Again(from + PageSize(from, top), all)
  {
    HonestPage(rest, endpoint, top, pre, pages);
  }

  lemma HonestStep(rest: Rest, endpoint: Endpoint, top: int, pre: int, post: int, pages: nat)
    requires Honest(rest, endpoint, top) && 0 <= pre < post <= top && pages < MAX_PAGES
    requires pre + 1 + PAGE_LIMIT * pages <= post
    ensures var from := pre + 1 + PAGE_LIMIT * pages;
            var all := Trades(pre + 1, PAGE_LIMIT * pages + PageSize(from, top), endpoint);
            FetchPages(rest, endpoint, Some(from), Some(post), pages, Trades(pre + 1, PAGE_LIMIT * pages, endpoint))
            == if LastTurn(top, pre, post, pages) then Paged(all, pages + 1, false)
               else FetchPages(rest, endpoint, Some(from + PageSize(from, top)), Some(post), pages + 1, all)
  {
    HonestTurn(rest, endpoint, top, pre, post, pages);
  }

  ghost predicate PagedFrom(rest: Rest, endpoint: Endpoint, pre: int, post: int, pages: nat, m: nat)
    requires pages < MAX_PAGES
  {
    var r := FetchPages(rest, endpoint, Some(pre + 1 + PAGE_LIMIT * pages), Some(post), pages,
                        Trades(pre + 1, PAGE_LIMIT * pages, endpoint));
    Completed(r, m, pre, post, endpoint)
  }

  lemma EndsHere(rest: Rest, endpoint: Endpoint, top: int, pre: int, post: int, pages: nat) returns (m: nat)
    requires Honest(rest, endpoint, top) && 0 <= pre < post <= top && pages < MAX_PAGES
    requires pre + 1 + PAGE_LIMIT * pages <= post && LastTurn(top, pre, post, pages)
    ensures PagedFrom(rest, endpoint, pre, post, pages, m)
  {
    HonestStep(rest, endpoint, top, pre, post, pages);
    m := PAGE_LIMIT * pages + PageSize(pre + 1 + PAGE_LIMIT * pages, top);
  }

  lemma GoesOn(rest: Rest, endpoint: Endpoint, top: int, pre: int, post: int, pages: nat, m: nat)
    requires Honest(rest, endpoint, top) && 0 <= pre < post <= top && pages + 1 < MAX_PAGES
    requires pre + 1 + PAGE_LIMIT * pages <= post && !LastTurn(top, pre, post, pages)
    requires PagedFrom(rest, endpoint, pre, post, pages + 1, m)
    ensures PagedFrom(rest, endpoint, pre, post, pages, m)
  {
    HonestStep(rest, endpoint, top, pre, post, pages);
  }

  lemma {:induction false} HonestPaging(rest: Rest, endpoint: Endpoint, top: int, pre: int, post: int, pages: nat)
      returns (m: nat)
    requires Honest(rest, endpoint, top) && 0 <= pre < post <= top && pages < MAX_PAGES
    requires pre + 1 + PAGE_LIMIT * pages <= post
    ensures PagedFrom(rest, endpoint, pre, post, pages, m)
    decreases MAX_PAGES - pages
  {
    if LastTurn(top, pre, post, pages) {
      m := EndsHere(rest, endpoint, top, pre, post, pages);
    } else {
      m := HonestPaging(rest, endpoint, top, pre, post, pages + 1);
      GoesOn(rest, endpoint, top, pre, post, pages, m);
    }
  }

  lemma TradesFetched(from: int, m: nat, endpoint: Endpoint, tradeId: int)
    requires from > 0
    ensures Convertible(Trades(from, m, endpoint))
    ensures Fetched(Trades(from, m, endpoint), tradeId) <==> from <= tradeId < from + m
  {
    var items := Trades(from, m, endpoint);
    forall k | 0 <= k < m
      ensures items[k].HasId() && items[k].Chosen() == Number(from + k)
    {
      TradesAt(from, m, endpoint, k);
    }
    if from <= tradeId < from + m {
      assert items[tradeId - from].Chosen().value == tradeId;
    }
  }

  lemma AdjacentProven(pre: int, m: nat, endpoint: Endpoint)
    requires pre >= 0 && m > 0
    ensures ContinuityProven(IdNumber(pre), IdNumber(pre + 1), Trades(pre + 1, m, endpoint))
  {
    var items := Trades(pre + 1, m, endpoint);
    TradesFetched(pre + 1, m, endpoint, pre + 1);
    RawIdsExactly(items, pre + 1);
  }

  lemma TradesProvenExactly(pre: int, post: int, m: nat, endpoint: Endpoint)
    requires 0 <= pre < post && m > 0
    ensures ContinuityProven(IdNumber(pre), IdNumber(post), Trades(pre + 1, m, endpoint)) <==> m >= post - pre - 1
  {
    var items := Trades(pre + 1, m, endpoint);
    if post == pre + 1 {
      AdjacentProven(pre, m, endpoint);
    } else {
      ProvenExactly(pre, post, items);
      TradesFetched(pre + 1, m, endpoint, post - 1);
      forall k
        ensures Fetched(items, k) <==> pre + 1 <= k < pre + 1 + m
      {
        TradesFetched(pre + 1, m, endpoint, k);
      }
    }
  }

  /** Main result: an honest server recovers a gap exactly when it holds at most ten pages of trades. */
  lemma HonestRecoversExactly(e: Entry, world: World, top: int)
    requires LiveBinance(e, world) && Honest(world.binance, EndpointOf(e.facts), top)
    requires 0 <= e.facts.preId.value < e.facts.postId.value <= top
    ensures Attempted(e, world).status == Recovered
            <==> e.facts.postId.value - e.facts.preId.value - 1 <= 10_000
    ensures Attempted(e, world).status == Recovered ==>
              Attempted(e, world).recovery.method_ == Some(TradeIdSequenceComplete)
    ensures Attempted(e, world).status != Recovered ==> Attempted(e, world).status == Partial
  {
    HonestCollects(e.facts, world.binance, top);
  }

  lemma HonestFetchAll(rest: Rest, endpoint: Endpoint, top: int, pre: int, post: int) returns (m: nat)
    requires Honest(rest, endpoint, top) && 0 <= pre < post <= top
    ensures var r := FetchAll(rest, endpoint, Some(pre + 1), Some(post));
            !r.raised && Settled(r.items, m, pre, post, endpoint) && m <= PAGE_LIMIT * MAX_PAGES
  {
    var pages: nat := 0;
    assert Trades(pre + 1, PAGE_LIMIT * pages, endpoint) == [];
    m := HonestPaging(rest, endpoint, top, pre, post, pages);
  }

  lemma HonestCollects(f: Facts, rest: Rest, top: int)
    requires Honest(rest, EndpointOf(f), top)
    requires f.preId.IdNumber? && f.postId.IdNumber? && 0 <= f.preId.value < f.postId.value <= top
    ensures FromBinance(f, rest).items != [] && FromBinance(f, rest).method_ == Sequence(FromBinance(f, rest).proven)
    ensures FromBinance(f, rest).proven <==> f.postId.value - f.preId.value - 1 <= PAGE_LIMIT * MAX_PAGES
  {
    var pre, post, endpoint := f.preId.value, f.postId.value, EndpointOf(f);
    var m := HonestFetchAll(rest, endpoint, top, pre, post);
    SettledProven(FetchAll(rest, endpoint, Some(pre + 1), Some(post)).items, m, pre, post, endpoint);
  }

  lemma SettledProven(items: seq<Item>, m: nat, pre: int, post: int, endpoint: Endpoint)
    requires Settled(items, m, pre, post, endpoint) && 0 <= pre < post && m <= PAGE_LIMIT * MAX_PAGES
    ensures items != []
    ensures ContinuityProven(IdNumber(pre), IdNumber(post), items) <==> post - pre - 1 <= PAGE_LIMIT * MAX_PAGES
  {
    TradesProvenExactly(pre, post, m, endpoint);
  }
}
