/** The year directory of cumulative generations over any sequence of merges. */
module LiquidationGenerations {
  import opened Common
  import opened LiquidationMerge

  /** File name to content.  Files are never rewritten. */
  type Files = map<nat, seq<Row>>

  ghost function Least(s: set<nat>): (n: nat)
    requires s != {}
    ensures n in s && forall x :: x in s ==> n <= x
  {
    assert exists n :: n in s && forall x :: x in s ==> n <= x by {
      var n := HasLeast(s);
    }
    var n :| n in s && forall x :: x in s ==> n <= x;
    n
  }

  lemma {:induction false} HasLeast(s: set<nat>) returns (n: nat)
    requires s != {}
    ensures n in s && forall x :: x in s ==> n <= x
  {
    n :| n in s;
    var rest := s - {n};
    assert forall x :: x in s ==> x == n || x in rest;
    if rest != {} {
      var m := HasLeast(rest);
      n := if m < n then m else n;
    }
  }

  /** `sorted(year_dir.glob(...))`: names ascending. */
  ghost function SortedNames(s: set<nat>): seq<nat> {
    if s == {} then [] else [Least(s)] + SortedNames(s - {Least(s)})
  }

  lemma {:induction false} SortedNamesElements(s: set<nat>)
    ensures forall n :: n in SortedNames(s) <==> n in s
  {
    if s != {} {
      SortedNamesElements(s - {Least(s)});
    }
  }

  ghost function ReadAll(files: Files, order: seq<nat>): seq<Row>
    requires forall n :: n in order ==> n in files
  {
    if order == [] then [] else ReadAll(files, order[..|order| - 1]) + files[order[|order| - 1]]
  }

  lemma {:induction false} ReadAllElements(files: Files, order: seq<nat>)
    requires forall n :: n in order ==> n in files
    ensures forall r :: r in ReadAll(files, order) <==> exists n :: n in order && r in files[n]
  {
    if order != [] {
      var prefix, last := order[..|order| - 1], order[|order| - 1];
      ReadAllElements(files, prefix);
      assert order == prefix + [last];
      forall r
        ensures r in ReadAll(files, order) <==> exists n :: n in order && r in files[n]
      {
        if r in files[last] {
          assert last in order;
        }
        if n :| n in order && r in files[n] {
          assert n in prefix || n == last;
        }
      }
    }
  }

  datatype MergeError = MixedSymbols

  datatype Published = Published(files: Files, name: nat, rows: nat)

  ghost function AllRows(files: Files): seq<Row> {
    SortedNamesElements(files.Keys);
    ReadAll(files, SortedNames(files.Keys))
  }

  predicate SingleSymbol(rows: seq<Row>) {
    rows != [] && forall r :: r in rows ==> r.symbol == rows[0].symbol
  }

  function Publish(tag: Tag, files: Files, ordered: seq<Row>): Published {
    var name := tag(Keys(ordered));
    Published(if name in files then files else files[name := ordered], name, |ordered|)
  }

  ghost function Merge(tag: Tag, files: Files, batch: seq<Row>): Result<Published, MergeError> {
    var ordered := Head(AllRows(files) + batch);
    if SingleSymbol(ordered) then Ok(Publish(tag, files, ordered)) else Err(MixedSymbols)
  }

  // ---------------------------------------------------------------- the history of a directory

  function Flat(batches: seq<seq<Row>>): seq<Row> {
    if batches == [] then [] else Flat(batches[..|batches| - 1]) + batches[|batches| - 1]
  }

  /** One generation for every non-empty prefix of the history. */
  ghost function Generations(tag: Tag, batches: seq<seq<Row>>): Files {
    if batches == [] then map[]
    else Generations(tag, batches[..|batches| - 1])[tag(Keys(Head(Flat(batches)))) := Head(Flat(batches))]
  }

  lemma {:induction false} GenerationsAgree(tag: Tag, batches: seq<seq<Row>>, symbol: string)
    requires OneSymbol(Flat(batches), symbol)
    ensures forall n :: n in Generations(tag, batches) ==>
              Agrees(Generations(tag, batches)[n], FirstSeen(Flat(batches)))
              && n == tag(Keys(Generations(tag, batches)[n]))
    ensures batches != [] ==>
              tag(Keys(Head(Flat(batches)))) in Generations(tag, batches)
              && Generations(tag, batches)[tag(Keys(Head(Flat(batches))))] == Head(Flat(batches))
  {
    if batches != [] {
      var prefix := batches[..|batches| - 1];
      GenerationsAgree(tag, prefix, symbol);
      FirstSeenConcat(Flat(prefix), batches[|batches| - 1]);
      HeadContents(Flat(batches), symbol);
    }
  }

  /** Reading every file back yields the first observations of the whole history, whatever the reading order. */
  lemma ReadBack(tag: Tag, batches: seq<seq<Row>>, symbol: string)
    requires OneSymbol(Flat(batches), symbol)
    ensures FirstSeen(AllRows(Generations(tag, batches))) == FirstSeen(Flat(batches))
    ensures OneSymbol(AllRows(Generations(tag, batches)), symbol)
  {
    var files, m := Generations(tag, batches), FirstSeen(Flat(batches));
    SortedNamesElements(files.Keys);
    ReadAllElements(files, SortedNames(files.Keys));
    GenerationsAgree(tag, batches, symbol);
    FirstSeenKeys(Flat(batches));
    HeadContents(Flat(batches), symbol);
    if batches != [] {
      forall k | k in m
        ensures HasKey(AllRows(files), k)
      {
        SameElementsSameKeys(Head(Flat(batches)), AllRows(files), k);
      }
    }
    AgreeingRows(AllRows(files), m);
  }

  lemma SameKeysSameRows(a: seq<Row>, b: seq<Row>, m: map<Key, Row>)
    requires Agrees(a, m) && Agrees(b, m) && Keys(a) == Keys(b)
    ensures a == b
  {
    assert |a| == |Keys(a)| && |b| == |Keys(b)|;
    forall i | 0 <= i < |a|
      ensures a[i] == b[i]
    {
      assert a[i] in a && b[i] in b;
      assert Keys(a)[i] == KeyOf(a[i]) && Keys(b)[i] == KeyOf(b[i]);
    }
  }

  lemma HistoryHead(tag: Tag, batches: seq<seq<Row>>, batch: seq<Row>, symbol: string)
    requires OneSymbol(Flat(batches) + batch, symbol) && Flat(batches) + batch != []
    ensures var all := Flat(batches) + batch;
            Head(AllRows(Generations(tag, batches)) + batch) == Head(all) && SingleSymbol(Head(all))
            && Agrees(Head(all), FirstSeen(all))
  {
    var files, all := Generations(tag, batches), Flat(batches) + batch;
    assert OneSymbol(Flat(batches), symbol) by {
      forall r | r in Flat(batches)
        ensures r.symbol == symbol
      {
        assert r in all;
      }
    }
    ReadBack(tag, batches, symbol);
    FirstSeenConcat(AllRows(files), batch);
    FirstSeenConcat(Flat(batches), batch);
    assert OneSymbol(batch, symbol) by {
      forall r | r in batch
        ensures r.symbol == symbol
      {
        assert r in all;
      }
    }
    HeadDetermined(AllRows(files) + batch, all, symbol);
    HeadContents(all, symbol);
    DedupSubset(all);
    SortElements(Dedup(all));
    assert Head(all)[0] in Head(all);
  }

  lemma HeadAlreadyThere(tag: Tag, batches: seq<seq<Row>>, batch: seq<Row>, symbol: string)
    requires CollisionFree(tag)
    requires OneSymbol(Flat(batches) + batch, symbol)
        && Agrees(Head(Flat(batches) + batch), FirstSeen(Flat(batches) + batch))
    requires tag(Keys(Head(Flat(batches) + batch))) in Generations(tag, batches)
    ensures Generations(tag, batches)[tag(Keys(Head(Flat(batches) + batch)))] == Head(Flat(batches) + batch)
  {
    var files, all := Generations(tag, batches), Flat(batches) + batch;
    var name := tag(Keys(Head(all)));
    assert OneSymbol(Flat(batches), symbol) by {
      forall r | r in Flat(batches)
        ensures r.symbol == symbol
      {
        assert r in all;
      }
    }
    GenerationsAgree(tag, batches, symbol);
    FirstSeenConcat(Flat(batches), batch);
    assert Agrees(files[name], FirstSeen(all));
    SameKeysSameRows(files[name], Head(all), FirstSeen(all));
  }

  /** Main result: a merge turns the directory of a history into the directory of the extended history. */
  lemma MergeExtendsHistory(tag: Tag, batches: seq<seq<Row>>, batch: seq<Row>, symbol: string)
    requires CollisionFree(tag)
    requires OneSymbol(Flat(batches) + batch, symbol) && Flat(batches) + batch != []
    ensures var head := Head(Flat(batches) + batch);
            Merge(tag, Generations(tag, batches), batch)
            == Ok(Published(Generations(tag, batches + [batch]), tag(Keys(head)), |head|))
  {
    var files, head := Generations(tag, batches), Head(Flat(batches) + batch);
    HistoryHead(tag, batches, batch, symbol);
    assert (batches + [batch])[..|batches|] == batches;
    if tag(Keys(head)) in files {
      HeadAlreadyThere(tag, batches, batch, symbol);
      assert files[tag(Keys(head)) := head] == files;
    }
  }

  // ---------------------------------------------------------------- consequences for every history

  /** No row is ever lost, and no later observation replaces it. */
  lemma HeadsGrow(earlier: seq<Row>, later: seq<Row>, symbol: string)
    requires OneSymbol(earlier + later, symbol)
    ensures forall r :: r in Head(earlier) ==> r in Head(earlier + later)
  {
    FirstSeenConcat(earlier, later);
    assert OneSymbol(earlier, symbol) by {
      forall r | r in earlier
        ensures r.symbol == symbol
      {
        assert r in earlier + later;
      }
    }
    HeadContents(earlier, symbol);
    HeadContents(earlier + later, symbol);
  }

  ghost predicate Included(a: seq<Row>, b: seq<Row>) {
    forall r :: r in a ==> r in b
  }

  /** The generations of a directory form an inclusion chain. */
  lemma {:induction false} GenerationsChain(tag: Tag, batches: seq<seq<Row>>, symbol: string, m: nat, n: nat)
    requires OneSymbol(Flat(batches), symbol)
    requires m in Generations(tag, batches) && n in Generations(tag, batches)
    ensures Included(Generations(tag, batches)[m], Generations(tag, batches)[n])
            || Included(Generations(tag, batches)[n], Generations(tag, batches)[m])
    ensures Included(Generations(tag, batches)[m], Head(Flat(batches)))
  {
    var prefix, last := batches[..|batches| - 1], batches[|batches| - 1];
    var name := tag(Keys(Head(Flat(batches))));
    if m != name && n != name {
      GenerationsChain(tag, prefix, symbol, m, n);
    } else if m != name {
      GenerationsChain(tag, prefix, symbol, m, m);
    } else if n != name {
      GenerationsChain(tag, prefix, symbol, n, n);
    }
    HeadsGrow(Flat(prefix), last, symbol);
  }

  /** `max(... num_rows ..., default=0)` over the directory is the size of the newest head. */
  ghost predicate IsMaxRows(files: Files, previousRows: nat) {
    && (forall n :: n in files ==> |files[n]| <= previousRows)
    && (if files == map[] then previousRows == 0 else exists n :: n in files && |files[n]| == previousRows)
  }

  lemma {:induction false} FilesNoLongerThanHead(tag: Tag, batches: seq<seq<Row>>, symbol: string)
    requires OneSymbol(Flat(batches), symbol)
    ensures forall n :: n in Generations(tag, batches) ==> |Generations(tag, batches)[n]| <= |FirstSeen(Flat(batches))|
  {
    if batches != [] {
      var prefix := batches[..|batches| - 1];
      FilesNoLongerThanHead(tag, prefix, symbol);
      HeadContents(Flat(batches), symbol);
      FirstSeenGrows(Flat(prefix), batches[|batches| - 1]);
    }
  }

  lemma FirstSeenGrows(a: seq<Row>, b: seq<Row>)
    ensures FirstSeen(a).Keys <= FirstSeen(a + b).Keys && |FirstSeen(a)| <= |FirstSeen(a + b)|
  {
    FirstSeenConcat(a, b);
    SubsetCardinality(FirstSeen(a).Keys, FirstSeen(a + b).Keys);
  }

  lemma {:induction false} SubsetCardinality<T>(a: set<T>, b: set<T>)
    requires a <= b
    ensures |a| <= |b|
  {
    if a != {} {
      var x :| x in a;
      SubsetCardinality(a - {x}, b - {x});
    }
  }

  lemma MaxRowsIsHeadSize(tag: Tag, batches: seq<seq<Row>>, symbol: string, previousRows: nat)
    requires OneSymbol(Flat(batches), symbol) && IsMaxRows(Generations(tag, batches), previousRows)
    ensures previousRows == |FirstSeen(Flat(batches))|
  {
    FilesNoLongerThanHead(tag, batches, symbol);
    if batches != [] {
      GenerationsAgree(tag, batches, symbol);
      HeadContents(Flat(batches), symbol);
    }
  }

  /** `max(0, rows - previous_rows)`. */
  function NewRows(rows: nat, previousRows: nat): nat {
    if rows > previousRows then rows - previousRows else 0
  }

  /** What the merge of the last batch reports: `rows` from the merge, against the row counts of the files before it. */
  ghost predicate Reports(tag: Tag, prefix: seq<seq<Row>>, batch: seq<Row>, rows: nat, previousRows: nat) {
    && IsMaxRows(Generations(tag, prefix), previousRows)
    && Merge(tag, Generations(tag, prefix), batch).Ok?
    && Merge(tag, Generations(tag, prefix), batch).value.rows == rows
  }

  function Sum(counts: seq<nat>): nat {
    if counts == [] then 0 else Sum(counts[..|counts| - 1]) + counts[|counts| - 1]
  }

  /** The merge of `batch` into the directory of `prefix` reports `newRows` new rows. */
  ghost predicate ReportOf(tag: Tag, prefix: seq<seq<Row>>, batch: seq<Row>, newRows: nat) {
    exists rows, previousRows ::
      Reports(tag, prefix, batch, rows, previousRows) && newRows == NewRows(rows, previousRows)
  }

  /** `reported` lists what the merges of the batches into one directory reported, one after the other. */
  ghost predicate Reported(tag: Tag, batches: seq<seq<Row>>, reported: seq<nat>)
    decreases |batches|
  {
    && |reported| == |batches|
    && (batches == [] ||
          (&& Reported(tag, batches[..|batches| - 1], reported[..|batches| - 1])
           && ReportOf(tag, batches[..|batches| - 1], batches[|batches| - 1], reported[|batches| - 1])))
  }

  /** One merge reports exactly the keys it adds to the history. */
  lemma ReportIsGrowth(tag: Tag, prefix: seq<seq<Row>>, batch: seq<Row>, rows: nat, previousRows: nat, symbol: string)
    requires CollisionFree(tag) && Reports(tag, prefix, batch, rows, previousRows)
    requires OneSymbol(Flat(prefix) + batch, symbol) && Flat(prefix) + batch != []
    ensures |FirstSeen(Flat(prefix))| + NewRows(rows, previousRows) == |FirstSeen(Flat(prefix) + batch)|
  {
    MergeExtendsHistory(tag, prefix, batch, symbol);
    HeadContents(Flat(prefix) + batch, symbol);
    MaxRowsIsHeadSize(tag, prefix, symbol, previousRows);
    FirstSeenGrows(Flat(prefix), batch);
  }

  lemma ReportedGrowth(tag: Tag, prefix: seq<seq<Row>>, batch: seq<Row>, newRows: nat, symbol: string)
    requires CollisionFree(tag) && ReportOf(tag, prefix, batch, newRows)
    requires OneSymbol(Flat(prefix) + batch, symbol) && batch != []
    ensures |FirstSeen(Flat(prefix))| + newRows == |FirstSeen(Flat(prefix) + batch)|
  {
    var rows, previousRows :|
      Reports(tag, prefix, batch, rows, previousRows) && newRows == NewRows(rows, previousRows);
    ReportIsGrowth(tag, prefix, batch, rows, previousRows, symbol);
  }

  predicate NoneEmpty(batches: seq<seq<Row>>) {
    forall i :: 0 <= i < |batches| ==> batches[i] != []
  }

  lemma FlatLast(batches: seq<seq<Row>>, symbol: string)
    requires batches != [] && OneSymbol(Flat(batches), symbol) && NoneEmpty(batches)
    ensures NoneEmpty(batches[..|batches| - 1]) && batches[|batches| - 1] != []
    ensures Flat(batches) == Flat(batches[..|batches| - 1]) + batches[|batches| - 1]
    ensures OneSymbol(Flat(batches[..|batches| - 1]), symbol)
  {
  }

  lemma {:induction false} ReportsAddUp(tag: Tag, batches: seq<seq<Row>>, reported: seq<nat>, symbol: string)
    requires CollisionFree(tag) && Reported(tag, batches, reported)
    requires OneSymbol(Flat(batches), symbol) && NoneEmpty(batches)
    ensures Sum(reported) == |FirstSeen(Flat(batches))|
    decreases |batches|
  {
    if batches != [] {
      var n := |batches| - 1;
      FlatLast(batches, symbol);
      ReportsAddUp(tag, batches[..n], reported[..n], symbol);
      ReportedGrowth(tag, batches[..n], batches[n], reported[n], symbol);
    }
  }

  /** The new rows reported by all merges into a directory add up to the number of distinct keys ever merged. */
  lemma NewRowsTelescope(tag: Tag, batches: seq<seq<Row>>, reported: seq<nat>, symbol: string)
    requires CollisionFree(tag) && Reported(tag, batches, reported)
    requires OneSymbol(Flat(batches), symbol) && NoneEmpty(batches)
    ensures Sum(reported) == |set r | r in Flat(batches) :: KeyOf(r)|
  {
    ReportsAddUp(tag, batches, reported, symbol);
    DistinctKeyCount(Flat(batches));
  }

  lemma DistinctKeyCount(rows: seq<Row>)
    ensures |FirstSeen(rows)| == |set r | r in rows :: KeyOf(r)|
    ensures FirstSeen(rows).Keys == set r | r in rows :: KeyOf(r)
  {
    FirstSeenKeys(rows);
    forall k
      ensures k in FirstSeen(rows) <==> k in set r | r in rows :: KeyOf(r)
    {
      if HasKey(rows, k) {
        var i :| 0 <= i < |rows| && KeyOf(rows[i]) == k;
        assert rows[i] in rows;
      }
    }
    assert FirstSeen(rows).Keys == set r | r in rows :: KeyOf(r);
  }

  /** Confluence: histories with the same keys, in any order and with any replays, end at the same key list and name. */
  lemma MergeConfluent(tag: Tag, a: seq<Row>, b: seq<Row>, symbol: string)
    requires OneSymbol(a, symbol) && OneSymbol(b, symbol)
    requires forall k :: HasKey(a, k) <==> HasKey(b, k)
    ensures Keys(Head(a)) == Keys(Head(b)) && tag(Keys(Head(a))) == tag(Keys(Head(b)))
  {
    HeadContents(a, symbol);
    HeadContents(b, symbol);
    FirstSeenKeys(a);
    FirstSeenKeys(b);
    AscendingKeysUnique(Head(a), Head(b));
  }

  lemma {:induction false} AscendingKeysUnique(a: seq<Row>, b: seq<Row>)
    requires Ascending(a) && Ascending(b)
    requires forall k :: HasKey(a, k) <==> HasKey(b, k)
    ensures Keys(a) == Keys(b)
  {
    assert a != [] ==> KeyOf(a[0]) == KeyOf(a[0]);
    assert b != [] ==> HasKey(b, KeyOf(b[0]));
    if a != [] {
      assert HasKey(a, KeyOf(a[0]));
      assert KeyOf(a[0]) == KeyOf(b[0]);
      forall k
        ensures HasKey(a[1..], k) <==> HasKey(b[1..], k)
      {
        TailKeys(a, k);
        TailKeys(b, k);
      }
      AscendingKeysUnique(a[1..], b[1..]);
      assert Keys(a) == [KeyOf(a[0])] + Keys(a[1..]);
      assert Keys(b) == [KeyOf(b[0])] + Keys(b[1..]);
    }
  }

  lemma TailKeys(a: seq<Row>, k: Key)
    requires a != [] && Ascending(a)
    ensures HasKey(a[1..], k) <==> HasKey(a, k) && k != KeyOf(a[0])
  {
    if HasKey(a, k) && k != KeyOf(a[0]) {
      var i :| 0 <= i < |a| && KeyOf(a[i]) == k;
      assert a[1..][i - 1] == a[i];
    }
    if HasKey(a[1..], k) {
      var i :| 0 <= i < |a[1..]| && KeyOf(a[1..][i]) == k;
      assert a[i + 1] == a[1..][i];
      assert Before(a[0], a[i + 1]);
    }
  }

  /** The content, unlike the name, is confluent exactly when the histories agree on every first observation. */
  lemma ContentConfluentExactly(a: seq<Row>, b: seq<Row>, symbol: string)
    requires OneSymbol(a, symbol) && OneSymbol(b, symbol)
    ensures Head(a) == Head(b) <==> FirstSeen(a) == FirstSeen(b)
  {
    if FirstSeen(a) == FirstSeen(b) {
      HeadDetermined(a, b, symbol);
    } else if Head(a) == Head(b) {
      HeadContents(a, symbol);
      HeadContents(b, symbol);
      AgreeingRows(Head(a), FirstSeen(a));
      AgreeingRows(Head(b), FirstSeen(b));
    }
  }

  lemma KnownKeysAddNothing(all: seq<Row>, replay: seq<Row>)
    requires forall r :: r in replay ==> HasKey(all, KeyOf(r))
    ensures FirstSeen(all + replay) == FirstSeen(all)
  {
    FirstSeenConcat(all, replay);
    FirstSeenKeys(all);
    FirstSeenKeys(replay);
  }

  /** Replaying rows whose keys are known publishes nothing and changes nothing. */
  lemma ReplayPublishesNothing(tag: Tag, batches: seq<seq<Row>>, replay: seq<Row>, symbol: string)
    requires CollisionFree(tag) && batches != []
    requires OneSymbol(Flat(batches), symbol) && OneSymbol(replay, symbol) && Flat(batches) != []
    requires forall r :: r in replay ==> HasKey(Flat(batches), KeyOf(r))
    ensures var head := Head(Flat(batches));
            Merge(tag, Generations(tag, batches), replay)
            == Ok(Published(Generations(tag, batches), tag(Keys(head)), |head|))
  {
    var all := Flat(batches);
    KnownKeysAddNothing(all, replay);
    HeadDetermined(all, all + replay, symbol);
    MergeExtendsHistory(tag, batches, replay, symbol);
    GenerationsAgree(tag, batches, symbol);
    assert (batches + [replay])[..|batches|] == batches;
    assert Generations(tag, batches + [replay]) == Generations(tag, batches);
  }

  /** Two deliveries of one wire frame: the first observation wins, so the order of arrival shows in the content. */
  lemma ArrivalOrderShowsInContent(r: Row, later: string)
    requires later != r.observation
    ensures var s := r.(observation := later);
            Keys(Head([r, s])) == Keys(Head([s, r])) && Head([r, s]) == [r] && Head([s, r]) == [s]
  {
    var s := r.(observation := later);
    assert [r, s][..1] == [r] && [s, r][..1] == [s] && [r][..0] == [] && [s][..0] == [];
    assert HasKey([r], KeyOf(s)) by { assert KeyOf([r][0]) == KeyOf(s); }
    assert HasKey([s], KeyOf(r)) by { assert KeyOf([s][0]) == KeyOf(r); }
    assert Dedup([r]) == [r] && Dedup([s]) == [s];
    assert Dedup([r, s]) == [r] && Dedup([s, r]) == [s];
    assert Sort([]) == [];
    assert Sort([r]) == [r] && Sort([s]) == [s];
  }
}
