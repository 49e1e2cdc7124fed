/** What each source of a gap recovery amounts to, in terms of its answers. */
module RecoverySources {
  import opened Common
  import opened GapRegistry
  import opened TradeContinuity
  import opened GapRecovery

  predicate Blanked(id: TradeId) {
    id == NoId || id == EmptyId
  }

  predicate Recoverable(e: Entry) {
    e.facts.datasetClass == "individual_trade" || e.facts.datasetClass == "exchange_aggregate_trade"
  }

  /** What a Bybit answer holds at most without being truncated: 59 spot trades, 999 others. */
  function Untruncated(marketType: string): nat {
    if marketType == "spot" then 59 else 999
  }

  /** Main result: Bybit's recent trades recover a gap exactly when some came back and fewer than were asked for. */
  lemma BybitExactly(e: Entry, world: World)
    requires Recoverable(e) && e.facts.exchange == "bybit" && world.fixture.None?
    ensures Attempted(e, world).status == Recovered
            <==> world.bybit.Items? && 1 <= |world.bybit.items| <= Untruncated(e.facts.marketType)
    ensures Attempted(e, world).status == Unrecoverable <==> !world.bybit.Items? || world.bybit.items == []
    ensures Attempted(e, world).status == Recovered ==>
              Attempted(e, world).recovery.method_ == Some(RecentTradeWindowBounded)
  {
  }

  /** A fixture recovers a gap when its ids prove it, or when it is short and no id was recorded before the gap. */
  lemma FixtureExactly(e: Entry, world: World)
    requires Recoverable(e) && world.fixture.Some? && world.fixture.value != []
    ensures var items := world.fixture.value;
            var short := |items| < if e.facts.exchange == "bybit" && e.facts.marketType == "spot" then 60 else 1000;
            Attempted(e, world).status == Recovered
            <==> ContinuityProven(e.facts.preId, e.facts.postId, items) || (short && Blanked(e.facts.preId))
  {
  }

  /** What an attempt records beside its verdict. */
  lemma AttemptRecords(e: Entry, world: World)
    requires Recoverable(e)
    ensures var r := Attempted(e, world).recovery;
            && r.attempted && r.records == |GapRecovery.Collect(e.facts, world).items|
            && r.pages == GapRecovery.Collect(e.facts, world).pages
            && r.limit == Some(if e.facts.exchange == "bybit" && e.facts.marketType == "spot" then 60 else 1000)
    ensures Attempted(e, world).status == Partial
            <==> GapRecovery.Collect(e.facts, world).items != [] && !GapRecovery.Collect(e.facts, world).proven
  {
  }

  /** A dataset that is neither individual nor aggregate trades is given up without asking anyone. */
  lemma OtherDatasetsAreGivenUp(e: Entry, world: World)
    requires !Recoverable(e)
    ensures Attempted(e, world).status == Unrecoverable && !Attempted(e, world).recovery.proven
    ensures Attempted(e, world).recovery.pages == e.recovery.pages
    ensures Attempted(e, world).recovery.records == e.recovery.records
  {
  }

  /** An error answer to the first request: individual trades are asked of the fallback, aggregate ones of nobody. */
  lemma FallbackExactly(rest: Rest, endpoint: Endpoint, page: nat, fromId: Option<int>)
    ensures var sent := if fromId == Some(0) then None else fromId;
            Request(rest, endpoint, page, fromId)
            == if rest.main(page, sent) == NotOk && endpoint == Individual then rest.fallback(page)
               else rest.main(page, sent)
  {
  }

  /** A page whose last item has no numeric id under the endpoint's own column ends the paging unproven. */
  lemma BrokenPageIsPartial(e: Entry, world: World, more: seq<Item>)
    requires Recoverable(e) && e.facts.exchange == "binance" && world.fixture.None? && more != []
    requires e.facts.preId.IdNumber? && e.facts.postId.IdNumber?
    requires Request(world.binance, EndpointOf(e.facts), 0, Some(e.facts.preId.value + 1)) == Items(more)
    requires var last := more[|more| - 1];
             if e.facts.datasetClass == "individual_trade" then !last.id.Numeric() else !last.a.Numeric()
    ensures Attempted(e, world).status == Partial
  {
    FirstPageBreaks(world.binance, EndpointOf(e.facts), Some(e.facts.preId.value + 1), Some(e.facts.postId.value),
                    more);
  }

  lemma FirstPageBreaks(rest: Rest, endpoint: Endpoint, fromId: Option<int>, target: Option<int>, more: seq<Item>)
    requires more != [] && Request(rest, endpoint, 0, fromId) == Items(more)
    requires var last := more[|more| - 1]; if endpoint == Individual then !last.id.Numeric() else !last.a.Numeric()
    ensures FetchAll(rest, endpoint, fromId, target) == Paged(more, 1, true)
  {
    assert [] + more == more;
  }

  // ---------------------------------------------------------------- the id of an item

  /** The columns an id is looked up in, in order. */
  function Columns(item: Item): seq<Field> {
    [item.id, item.a, item.t, item.i]
  }

  /** A value counts as present unless it is missing, zero or the empty text. */
  predicate Present(f: Field) {
    f != Missing && f != Number(0) && f != EmptyText
  }

  /** The id of an item is its first present column; without one the empty text is taken. */
  lemma ChosenExactly(item: Item)
    ensures item.Chosen() == EmptyText <==> forall k :: 0 <= k < 4 ==> !Present(Columns(item)[k])
    ensures forall k :: 0 <= k < 4 && Present(Columns(item)[k])
                        && (forall j :: 0 <= j < k ==> !Present(Columns(item)[j])) ==>
              item.Chosen() == Columns(item)[k]
  {
    assert Columns(item)[0] == item.id && Columns(item)[1] == item.a;
    assert Columns(item)[2] == item.t && Columns(item)[3] == item.i;
  }

  // ---------------------------------------------------------------- the edges of a gap

  /** A gap with nothing in it is proven by one fetched trade at or before its start and one at or after its end. */
  lemma EmptyGapExactly(pre: int, post: int, items: seq<Item>)
    requires post <= pre + 1
    ensures ContinuityProven(IdNumber(pre), IdNumber(post), items)
            <==> && Convertible(items)
                 && (exists k :: Fetched(items, k) && k <= pre + 1) && (exists k :: Fetched(items, k) && k >= post - 1)
  {
    if Convertible(items) {
      forall k
        ensures k in RawIds(items) <==> Fetched(items, k)
      {
        RawIdsExactly(items, k);
      }
    }
  }

  /** Without both edges recorded as numbers nothing is proven. */
  lemma EdgesAreNeeded(pre: TradeId, post: TradeId, items: seq<Item>)
    ensures ContinuityProven(pre, post, items) ==> pre.IdNumber? && post.IdNumber? && items != []
  {
  }
}
