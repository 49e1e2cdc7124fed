/**
 Cumulative generations of Binance liquidations: merge_and_write_binance_liquidation_parquet in
 binance/liquidations.py.  A year directory holds immutable files named by a digest of their sorted keys; a
 merge reads them all, adds a batch with `setdefault`, sorts, and publishes the result unless it exists.
 */
module LiquidationMerge {
  import opened Common

  /** `observation` is every column outside the key: reception times, prices, raw text.  The canonical-identity
      check makes the instrument a function of the symbol. */
  datatype Row = Row(symbol: string, tradeTimeMs: int, fingerprint: nat, observation: string)

  datatype Key = Key(symbol: string, tradeTimeMs: int, fingerprint: nat)

  function KeyOf(r: Row): Key {
    Key(r.symbol, r.tradeTimeMs, r.fingerprint)
  }

  function Keys(rows: seq<Row>): seq<Key> {
    seq(|rows|, i requires 0 <= i < |rows| => KeyOf(rows[i]))
  }

  /** Truncated SHA-256 of the key list; the results that need it collision-free say so. */
  type Tag = seq<Key> -> nat

  ghost predicate CollisionFree(tag: Tag) {
    forall a, b :: tag(a) == tag(b) ==> a == b
  }

  // ---------------------------------------------------------------- the dictionary

  predicate HasKey(rows: seq<Row>, k: Key) {
    exists i :: 0 <= i < |rows| && KeyOf(rows[i]) == k
  }

  /** `rows_by_key.setdefault` on an insertion-ordered dictionary. */
  function SetDefault(rows: seq<Row>, r: Row): seq<Row> {
    if HasKey(rows, KeyOf(r)) then rows else rows + [r]
  }

  function Dedup(rows: seq<Row>): seq<Row> {
    if rows == [] then [] else SetDefault(Dedup(rows[..|rows| - 1]), rows[|rows| - 1])
  }

  /** The declarative counterpart of the dictionary: each key with its first observation. */
  function FirstSeen(rows: seq<Row>): map<Key, Row> {
    if rows == [] then map[]
    else
      var m, r := FirstSeen(rows[..|rows| - 1]), rows[|rows| - 1];
      if KeyOf(r) in m then m else m[KeyOf(r) := r]
  }

  predicate DistinctKeys(rows: seq<Row>) {
    forall i, j :: 0 <= i < j < |rows| ==> KeyOf(rows[i]) != KeyOf(rows[j])
  }

  /** Every row is the one `m` records for its key. */
  predicate Agrees(rows: seq<Row>, m: map<Key, Row>) {
    forall r :: r in rows ==> KeyOf(r) in m && m[KeyOf(r)] == r
  }

  lemma {:induction false} FirstSeenConcat(a: seq<Row>, b: seq<Row>)
    ensures FirstSeen(a + b) == FirstSeen(b) + FirstSeen(a)
  {
    if b == [] {
      assert a + b == a;
    } else {
      assert (a + b)[..|a + b| - 1] == a + b[..|b| - 1];
      FirstSeenConcat(a, b[..|b| - 1]);
    }
  }

  lemma {:induction false} FirstSeenKeys(rows: seq<Row>)
    ensures forall k :: k in FirstSeen(rows) <==> HasKey(rows, k)
    ensures forall k :: k in FirstSeen(rows) ==> KeyOf(FirstSeen(rows)[k]) == k && FirstSeen(rows)[k] in rows
  {
    if rows != [] {
      var prefix := rows[..|rows| - 1];
      FirstSeenKeys(prefix);
      forall k | HasKey(rows, k)
        ensures k in FirstSeen(rows)
      {
        var i :| 0 <= i < |rows| && KeyOf(rows[i]) == k;
        assert i < |rows| - 1 ==> KeyOf(prefix[i]) == k;
      }
      forall k | k in FirstSeen(rows)
        ensures HasKey(rows, k)
      {
        if HasKey(prefix, k) {
          var i :| 0 <= i < |prefix| && KeyOf(prefix[i]) == k;
          assert KeyOf(rows[i]) == k;
        } else {
          assert KeyOf(rows[|rows| - 1]) == k;
        }
      }
    }
  }

  /** The first observation really is the first: the row at the least index with its key. */
  lemma {:induction false} FirstSeenIsFirst(rows: seq<Row>, i: nat)
    requires i < |rows| && !HasKey(rows[..i], KeyOf(rows[i]))
    ensures KeyOf(rows[i]) in FirstSeen(rows) && FirstSeen(rows)[KeyOf(rows[i])] == rows[i]
  {
    FirstSeenKeys(rows[..i]);
    assert rows[..i + 1] == rows[..i] + [rows[i]];
    assert rows == rows[..i + 1] + rows[i + 1..];
    FirstSeenConcat(rows[..i + 1], rows[i + 1..]);
    assert rows[..i + 1][..i] == rows[..i];
  }

  /** The dictionary `d` records exactly the entries of `m`, each once. */
  ghost predicate Holds(d: seq<Row>, m: map<Key, Row>) {
    DistinctKeys(d) && Agrees(d, m) && (forall k :: HasKey(d, k) <==> k in m) && |d| == |m|
  }

  lemma HasKeyAppend(d: seq<Row>, r: Row, k: Key)
    ensures HasKey(d + [r], k) <==> HasKey(d, k) || k == KeyOf(r)
  {
    if HasKey(d, k) {
      var i :| 0 <= i < |d| && KeyOf(d[i]) == k;
      assert KeyOf((d + [r])[i]) == k;
    }
    assert KeyOf((d + [r])[|d|]) == KeyOf(r);
  }

  lemma NewKeySize(m: map<Key, Row>, r: Row)
    requires KeyOf(r) !in m
    ensures |m[KeyOf(r) := r]| == |m| + 1
  {
    assert m[KeyOf(r) := r].Keys == m.Keys + {KeyOf(r)};
  }

  lemma HoldsNewKey(d: seq<Row>, m: map<Key, Row>, r: Row)
    requires Holds(d, m) && KeyOf(r) !in m
    ensures Holds(d + [r], m[KeyOf(r) := r])
  {
    NewKeySize(m, r);
    forall k
      ensures HasKey(d + [r], k) <==> HasKey(d, k) || k == KeyOf(r)
    {
      HasKeyAppend(d, r, k);
    }
    forall i | 0 <= i < |d|
      ensures KeyOf(d[i]) != KeyOf(r)
    {
      assert HasKey(d, KeyOf(d[i]));
    }
  }

  lemma {:induction false} DedupHolds(rows: seq<Row>)
    ensures Holds(Dedup(rows), FirstSeen(rows))
  {
    if rows != [] {
      var prefix, r := rows[..|rows| - 1], rows[|rows| - 1];
      DedupHolds(prefix);
      if KeyOf(r) !in FirstSeen(prefix) {
        HoldsNewKey(Dedup(prefix), FirstSeen(prefix), r);
      }
    }
  }

  lemma DedupIsFirstSeen(rows: seq<Row>)
    ensures DistinctKeys(Dedup(rows)) && Agrees(Dedup(rows), FirstSeen(rows))
    ensures forall k :: HasKey(Dedup(rows), k) <==> k in FirstSeen(rows)
    ensures |Dedup(rows)| == |FirstSeen(rows)|
  {
    DedupHolds(rows);
  }

  /** Rows that agree with `m` and cover its keys have `m` as their first observations, in whatever order they come. */
  lemma {:induction false} AgreeingRows(rows: seq<Row>, m: map<Key, Row>)
    requires Agrees(rows, m)
    ensures forall k :: k in FirstSeen(rows) ==> k in m && FirstSeen(rows)[k] == m[k]
    ensures (forall k :: k in m ==> HasKey(rows, k)) ==> FirstSeen(rows) == m
  {
    FirstSeenKeys(rows);
  }

  // ---------------------------------------------------------------- sorting

  /** The sort key (event_time, dedup_fingerprint). */
  predicate Before(a: Row, b: Row) {
    a.tradeTimeMs < b.tradeTimeMs || (a.tradeTimeMs == b.tradeTimeMs && a.fingerprint < b.fingerprint)
  }

  predicate Ascending(rows: seq<Row>) {
    forall i, j :: 0 <= i < j < |rows| ==> Before(rows[i], rows[j])
  }

  predicate OneSymbol(rows: seq<Row>, symbol: string) {
    forall r :: r in rows ==> r.symbol == symbol
  }

  function Insert(rows: seq<Row>, r: Row): seq<Row> {
    if rows == [] || Before(r, rows[0]) then [r] + rows else [rows[0]] + Insert(rows[1..], r)
  }

  function Sort(rows: seq<Row>): seq<Row> {
    if rows == [] then [] else Insert(Sort(rows[..|rows| - 1]), rows[|rows| - 1])
  }

  lemma {:induction false} InsertElements(rows: seq<Row>, r: Row)
    ensures forall x :: x in Insert(rows, r) <==> x in rows || x == r
    ensures |Insert(rows, r)| == |rows| + 1
  {
    if rows != [] && !Before(r, rows[0]) {
      InsertElements(rows[1..], r);
      assert rows == [rows[0]] + rows[1..];
    }
  }

  lemma {:induction false} InsertAscends(rows: seq<Row>, r: Row)
    requires Ascending(rows)
    requires forall x :: x in rows ==> Before(x, r) || Before(r, x)
    ensures Ascending(Insert(rows, r))
  {
    if rows != [] && !Before(r, rows[0]) {
      InsertAscends(rows[1..], r);
      InsertElements(rows[1..], r);
      var tail := Insert(rows[1..], r);
      forall j | 0 <= j < |tail|
        ensures Before(rows[0], tail[j])
      {
        assert tail[j] in tail;
      }
    }
  }

  lemma {:induction false} SortElements(rows: seq<Row>)
    ensures forall x :: x in Sort(rows) <==> x in rows
    ensures |Sort(rows)| == |rows|
  {
    if rows != [] {
      SortElements(rows[..|rows| - 1]);
      InsertElements(Sort(rows[..|rows| - 1]), rows[|rows| - 1]);
      assert rows == rows[..|rows| - 1] + [rows[|rows| - 1]];
    }
  }

  lemma {:induction false} SortAscends(rows: seq<Row>, symbol: string)
    requires DistinctKeys(rows) && OneSymbol(rows, symbol)
    ensures Ascending(Sort(rows))
  {
    if rows != [] {
      var prefix, r := rows[..|rows| - 1], rows[|rows| - 1];
      SortAscends(prefix, symbol);
      SortElements(prefix);
      forall x | x in prefix
        ensures Before(x, r) || Before(r, x)
      {
        var i :| 0 <= i < |prefix| && prefix[i] == x;
        assert KeyOf(rows[i]) != KeyOf(r);
        assert x.symbol == r.symbol;
      }
      InsertAscends(Sort(prefix), r);
    }
  }

  /** An ascending list is determined by its elements. */
  lemma {:induction false} AscendingUnique(a: seq<Row>, b: seq<Row>)
    requires Ascending(a) && Ascending(b)
    requires forall x :: x in a <==> x in b
    ensures a == b
  {
    assert b != [] ==> b[0] in b;
    if a != [] {
      assert a[0] in b;
      assert b[0] in a;
      assert a[0] == b[0];
      forall x
        ensures x in a[1..] <==> x in b[1..]
      {
        if x in a[1..] {
          assert x in a && x != a[0];
          assert x in b;
        }
        if x in b[1..] {
          assert x in b && x != b[0];
          assert x in a;
        }
      }
      AscendingUnique(a[1..], b[1..]);
    }
  }

  // ---------------------------------------------------------------- the cumulative content

  /** The generation that holds every row of `rows`: first observations in key order. */
  function Head(rows: seq<Row>): seq<Row> {
    Sort(Dedup(rows))
  }

  lemma {:induction false} DedupSubset(rows: seq<Row>)
    ensures forall r :: r in Dedup(rows) ==> r in rows
    ensures rows != [] ==> Dedup(rows) != []
  {
    if rows != [] {
      DedupSubset(rows[..|rows| - 1]);
      assert rows == rows[..|rows| - 1] + [rows[|rows| - 1]];
    }
  }

  lemma SameElementsSameKeys(a: seq<Row>, b: seq<Row>, k: Key)
    requires forall r :: r in a ==> r in b
    requires HasKey(a, k)
    ensures HasKey(b, k)
  {
    var i :| 0 <= i < |a| && KeyOf(a[i]) == k;
    assert a[i] in b;
    var j :| 0 <= j < |b| && b[j] == a[i];
  }

  lemma AgreeingHasKey(rows: seq<Row>, m: map<Key, Row>, r: Row)
    requires Agrees(rows, m) && HasKey(rows, KeyOf(r)) && KeyOf(r) in m && m[KeyOf(r)] == r
    ensures r in rows
  {
    var i :| 0 <= i < |rows| && KeyOf(rows[i]) == KeyOf(r);
    assert rows[i] in rows;
  }

  lemma HeadContents(rows: seq<Row>, symbol: string)
    requires OneSymbol(rows, symbol)
    ensures Ascending(Head(rows)) && Agrees(Head(rows), FirstSeen(rows)) && OneSymbol(Head(rows), symbol)
    ensures forall k :: HasKey(Head(rows), k) <==> k in FirstSeen(rows)
    ensures forall r :: r in Head(rows) <==> KeyOf(r) in FirstSeen(rows) && FirstSeen(rows)[KeyOf(r)] == r
    ensures |Head(rows)| == |FirstSeen(rows)|
  {
    var d := Dedup(rows);
    DedupIsFirstSeen(rows);
    DedupSubset(rows);
    SortElements(d);
    SortAscends(d, symbol);
    forall k
      ensures HasKey(Head(rows), k) <==> k in FirstSeen(rows)
    {
      if HasKey(d, k) {
        SameElementsSameKeys(d, Head(rows), k);
      }
      if HasKey(Head(rows), k) {
        SameElementsSameKeys(Head(rows), d, k);
      }
    }
    forall r | KeyOf(r) in FirstSeen(rows) && FirstSeen(rows)[KeyOf(r)] == r
      ensures r in Head(rows)
    {
      AgreeingHasKey(d, FirstSeen(rows), r);
    }
  }

  /** The head depends only on the first observations. */
  lemma HeadDetermined(a: seq<Row>, b: seq<Row>, symbol: string)
    requires OneSymbol(a, symbol) && OneSymbol(b, symbol) && FirstSeen(a) == FirstSeen(b)
    ensures Head(a) == Head(b)
  {
    HeadContents(a, symbol);
    HeadContents(b, symbol);
    AscendingUnique(Head(a), Head(b));
  }
}
