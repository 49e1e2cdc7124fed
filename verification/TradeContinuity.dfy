/** `verify_trade_id_continuity` of realtime_recovery.py: when fetched trades prove that a gap is filled. */
module TradeContinuity {
  import opened Common
  import opened GapRegistry

  /** One id column of a fetched JSON item. */
  datatype Field = Missing | Number(value: int) | Digits(value: int) | EmptyText | OtherText {
    /** What Python's `or` keeps. */
    predicate Truthy() {
      match this
      case Missing => false
      case Number(v) => v != 0
      case Digits(_) => true
      case EmptyText => false
      case OtherText => true
    }

    predicate Numeric() {
      Number? || Digits?
    }
  }

  /** The columns "id", "a", "t" and "i". */
  datatype Item = Item(id: Field, a: Field, t: Field, i: Field) {
    predicate HasId() {
      !id.Missing? || !a.Missing? || !t.Missing? || !i.Missing?
    }

    /** `id or a or t or i or ""`. */
    function Chosen(): Field {
      if id.Truthy() then id
      else if a.Truthy() then a
      else if t.Truthy() then t
      else if i.Truthy() then i
      else EmptyText
    }
  }

  predicate Convertible(items: seq<Item>) {
    forall k :: 0 <= k < |items| ==> items[k].HasId() ==> items[k].Chosen().Numeric()
  }

  /** `raw_ids`. */
  function RawIds(items: seq<Item>): seq<int>
    requires Convertible(items)
  {
    if items == [] then []
    else RawIds(items[..|items| - 1]) + if items[|items| - 1].HasId() then [items[|items| - 1].Chosen().value] else []
  }

  function Least(ids: seq<int>): (m: int)
    requires ids != []
    ensures m in ids && forall k :: k in ids ==> m <= k
  {
    if |ids| == 1 then ids[0]
    else
      var m, last := Least(ids[..|ids| - 1]), ids[|ids| - 1];
      assert ids == ids[..|ids| - 1] + [last];
      if last < m then last else m
  }

  function Greatest(ids: seq<int>): (m: int)
    requires ids != []
    ensures m in ids && forall k :: k in ids ==> k <= m
  {
    if |ids| == 1 then ids[0]
    else
      var m, last := Greatest(ids[..|ids| - 1]), ids[|ids| - 1];
      assert ids == ids[..|ids| - 1] + [last];
      if last > m then last else m
  }

  /** `set(range(pre + 1, post)).issubset(ids)`. */
  function RangeCovered(pre: int, post: int, ids: seq<int>): (r: bool)
    ensures r <==> forall k :: pre < k < post ==> k in ids
    decreases post - pre
  {
    pre + 1 >= post || (pre + 1 in ids && RangeCovered(pre + 1, post, ids))
  }

  /** True is answered with the method `trade_id_sequence_complete`, false with none. */
  function ContinuityProven(pre: TradeId, post: TradeId, items: seq<Item>): bool {
    if pre.NoId? || pre.EmptyId? || post.NoId? || post.EmptyId? || items == [] then false
    else if pre.IdText? || post.IdText? || !Convertible(items) then false   // int() raises, and is caught
    else
      var ids := RawIds(items);
      if ids == [] then false
      else if !(Least(ids) <= pre.value + 1 && Greatest(ids) >= post.value - 1) then false
      else RangeCovered(pre.value, post.value, ids)
  }

  predicate Fetched(items: seq<Item>, tradeId: int) {
    exists k :: 0 <= k < |items| && items[k].HasId() && items[k].Chosen().Numeric()
        && items[k].Chosen().value == tradeId
  }

  lemma {:induction false} RawIdsExactly(items: seq<Item>, tradeId: int)
    requires Convertible(items)
    ensures tradeId in RawIds(items) <==> Fetched(items, tradeId)
    ensures |RawIds(items)| <= |items|
  {
    if items != [] {
      var prefix, last := items[..|items| - 1], items[|items| - 1];
      RawIdsExactly(prefix, tradeId);
      if Fetched(prefix, tradeId) {
        var k :| 0 <= k < |prefix| && prefix[k].HasId() && prefix[k].Chosen().Numeric()
            && prefix[k].Chosen().value == tradeId;
        assert items[k] == prefix[k];
      }
      if Fetched(items, tradeId) && !Fetched(prefix, tradeId) {
        var k :| 0 <= k < |items| && items[k].HasId() && items[k].Chosen().Numeric()
            && items[k].Chosen().value == tradeId;
        assert k < |prefix| ==> prefix[k] == items[k];
      }
    }
  }

  /** Soundness: a proven recovery fetched every trade strictly inside the gap. */
  lemma ProvenHasNoHole(pre: TradeId, post: TradeId, items: seq<Item>, tradeId: int)
    requires ContinuityProven(pre, post, items)
    ensures pre.IdNumber? && post.IdNumber?
    ensures pre.value < tradeId < post.value ==> Fetched(items, tradeId)
  {
    RawIdsExactly(items, tradeId);
  }

  /** For a gap with something in it the check is exact: nothing fails to convert and no trade is missing. */
  lemma ProvenExactly(pre: int, post: int, items: seq<Item>)
    requires pre + 1 < post
    ensures ContinuityProven(IdNumber(pre), IdNumber(post), items)
            <==> Convertible(items) && forall k :: pre < k < post ==> Fetched(items, k)
  {
    if Convertible(items) {
      forall k
        ensures k in RawIds(items) <==> Fetched(items, k)
      {
        RawIdsExactly(items, k);
      }
      if forall k :: pre < k < post ==> Fetched(items, k) {
        assert Fetched(items, pre + 1) && Fetched(items, post - 1);
        assert pre + 1 in RawIds(items) && post - 1 in RawIds(items);
      }
    }
  }

  // ---------------------------------------------------------------- pigeonhole

  function Inside(pre: int, post: int): (s: set<int>)
    ensures forall k :: k in s <==> pre < k < post
    ensures |s| == if pre + 1 < post then post - pre - 1 else 0
    decreases post - pre
  {
    if pre + 1 >= post then {} else Inside(pre + 1, post) + {pre + 1}
  }

  lemma {:induction false} SetOfSeqBounded(s: seq<int>)
    ensures |set k | k in s| <= |s|
  {
    if s != [] {
      var prefix, last := s[..|s| - 1], s[|s| - 1];
      SetOfSeqBounded(prefix);
      assert s == prefix + [last];
      assert (set k | k in s) == (set k | k in prefix) + {last};
    }
  }

  lemma SubsetBounded(a: set<int>, b: set<int>)
    requires a <= b
    ensures |a| <= |b|
  {
    assert b == a + (b - a);
  }

  /** No gap holding more trades than were fetched is ever proven. */
  lemma ProvenNeedsEnoughItems(pre: int, post: int, items: seq<Item>)
    requires ContinuityProven(IdNumber(pre), IdNumber(post), items)
    ensures post - pre - 1 <= |items|
  {
    var ids := RawIds(items);
    RawIdsExactly(items, 0);
    SetOfSeqBounded(ids);
    forall k | k in Inside(pre, post)
      ensures k in ids
    {
      RawIdsExactly(items, k);
    }
    SubsetBounded(Inside(pre, post), set k | k in ids);
  }
}
