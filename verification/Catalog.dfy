/**
 `resolve_active_artifacts` of storage/catalog.py: which Parquet objects an append-only manifest log makes
 active.  An absent string column is the empty string, as the code's truth tests treat both alike.
 */
module Catalog {
  import opened Common

  datatype DatasetClass =
    Ohlcv | IndividualTrade | AggregateTrade | DerivedBucket | FundingRate | OpenInterest | Liquidations

  predicate Cumulative(c: DatasetClass) {
    c == FundingRate || c == OpenInterest || c == Liquidations
  }

  /** The upper-cased action: "", NORMALIZED, INGESTED and COMPACTED publish; SUPERSEDED and DELETED remove. */
  datatype Action = Publish | Remove | Quarantine | OtherAction

  datatype Row = Row(
    manifest: string, action: Action, cls: DatasetClass,
    objectId: string, createdParquets: seq<string>, parquetSha256: seq<string>, sourceParquetSha256: string,
    removedIds: seq<string>, quarantinedParquets: seq<string>,
    sourceDatasetId: string, exchange: string, marketType: string, symbolOrInstrument: string, period: string)

  type Log = seq<Row>

  // ---------------------------------------------------------------- references

  function NormaliseRef(value: string): string {
    seq(|value|, i requires 0 <= i < |value| => if value[i] == '\\' then '/' else value[i])
  }

  /** `Path(ref).name` of a normalised reference. */
  function Name(ref: string): string {
    if ref == [] then [] else if ref[|ref| - 1] == '/' then [] else Name(ref[..|ref| - 1]) + [ref[|ref| - 1]]
  }

  function Lower(c: char): char {
    if 'A' <= c <= 'Z' then c - 'A' + 'a' else c
  }

  predicate IsParquet(value: string) {
    var suffix := ".parquet";
    |value| >= |suffix|
    && forall i :: 0 <= i < |suffix| ==> Lower(value[|value| - |suffix| + i]) == suffix[i]
  }

  /** One published object of a row. */
  datatype Publication = Publication(ref: string, sha256: string, row: Row)

  /** `_artifact_refs`: the object id, then the created files, paired with the recorded hashes by position. */
  function ArtifactRefs(row: Row): seq<string> {
    (if IsParquet(row.objectId) then [row.objectId] else []) + row.createdParquets
  }

  function PublicationsOf(row: Row): seq<Publication> {
    var refs := ArtifactRefs(row);
    seq(|refs|, i requires 0 <= i < |refs| =>
      Publication(NormaliseRef(refs[i]), if i < |row.parquetSha256| then row.parquetSha256[i] else "", row))
  }

  datatype GenerationKey = GenerationKey(manifest: string, cls: DatasetClass, sourceDatasetId: string, exchange: string,
                                         marketType: string, symbolOrInstrument: string, period: string)

  function KeyOf(row: Row): GenerationKey {
    GenerationKey(row.manifest, row.cls, row.sourceDatasetId, row.exchange, row.marketType, row.symbolOrInstrument,
        row.period)
  }

  /** `_removed_references`; `removedIds` collects the superseded and deleted id columns. */
  function RemovedReferences(row: Row): set<string> {
    set v | v in [row.objectId] + row.removedIds && IsParquet(v) :: NormaliseRef(v)
  }

  function QuarantinedNames(row: Row): set<string> {
    set v | v in row.quarantinedParquets :: Name(NormaliseRef(v))
  }

  // ---------------------------------------------------------------- the declarative reading of a log

  function RemovedRefs(log: Log): set<string> {
    set i, r | 0 <= i < |log| && log[i].action == Remove && r in RemovedReferences(log[i]) :: r
  }

  function HiddenNames(log: Log): set<string> {
    set i, n | 0 <= i < |log| && log[i].action == Quarantine && n in QuarantinedNames(log[i]) :: n
  }

  function Additive(log: Log): seq<Row> {
    if log == [] then []
    else
      var r := log[|log| - 1];
      Additive(log[..|log| - 1]) + if r.action == Publish && !Cumulative(r.cls) then [r] else []
  }

  /** An insertion-ordered dictionary from generation keys to rows. */
  type Generations = seq<(GenerationKey, Row)>

  function Put(g: Generations, k: GenerationKey, r: Row): Generations {
    if g == [] then [(k, r)]
    else if g[0].0 == k then [(k, r)] + g[1..]
    else [g[0]] + Put(g[1..], k, r)
  }

  function LatestCumulative(log: Log): Generations {
    if log == [] then []
    else
      var g, r := LatestCumulative(log[..|log| - 1]), log[|log| - 1];
      if r.action == Publish && Cumulative(r.cls) then Put(g, KeyOf(r), r) else g
  }

  function Values(g: Generations): seq<Row> {
    seq(|g|, i requires 0 <= i < |g| => g[i].1)
  }

  function Selected(log: Log): seq<Row> {
    Additive(log) + Values(LatestCumulative(log))
  }

  function Publications(rows: seq<Row>): seq<Publication> {
    if rows == [] then [] else Publications(rows[..|rows| - 1]) + PublicationsOf(rows[|rows| - 1])
  }

  /** The last publication of a reference. */
  function LastPublication(pubs: seq<Publication>, ref: string): Option<Publication> {
    if pubs == [] then None
    else if pubs[|pubs| - 1].ref == ref then Some(pubs[|pubs| - 1])
    else LastPublication(pubs[..|pubs| - 1], ref)
  }

  function Winner(log: Log, ref: string): Option<Publication> {
    LastPublication(Publications(Selected(log)), ref)
  }

  predicate Hidden(log: Log, ref: string) {
    ref in RemovedRefs(log) || Name(ref) in HiddenNames(log)
  }

  predicate Visible(log: Log, ref: string) {
    !Hidden(log, ref) && Winner(log, ref).Some?
  }

  predicate NamesSource(p: Publication) {
    p.row.cls == DerivedBucket && p.row.sourceParquetSha256 != ""
  }

  /** `ref` is a visible individual-trade object recorded with hash `sha`. */
  predicate TradeSource(log: Log, ref: string, sha: string) {
    Visible(log, ref) && Winner(log, ref).value.row.cls == IndividualTrade && Winner(log, ref).value.sha256 == sha != ""
  }

  /** Active: never removed, never quarantined, and a derived bucket's named source is itself visible. */
  ghost predicate Active(log: Log, ref: string) {
    && Visible(log, ref)
    && (NamesSource(Winner(log, ref).value) ==>
          exists source :: TradeSource(log, source, Winner(log, ref).value.row.sourceParquetSha256))
  }

  // ---------------------------------------------------------------- what the definition gives

  /** Every active derived bucket that names a source hash has an active individual-trade object with that hash. */
  lemma DerivedHasActiveSource(log: Log, ref: string) returns (source: string)
    requires Active(log, ref) && NamesSource(Winner(log, ref).value)
    ensures Active(log, source) && Winner(log, source).value.row.cls == IndividualTrade
    ensures Winner(log, source).value.sha256 == Winner(log, ref).value.row.sourceParquetSha256
  {
    source :| TradeSource(log, source, Winner(log, ref).value.row.sourceParquetSha256);
  }

  function PublishRows(log: Log): Log {
    if log == [] then []
    else PublishRows(log[..|log| - 1]) + if log[|log| - 1].action == Publish then [log[|log| - 1]] else []
  }

  lemma {:induction false} SelectionIgnoresHiding(log: Log)
    ensures Additive(log) == Additive(PublishRows(log))
    ensures LatestCumulative(log) == LatestCumulative(PublishRows(log))
  {
    if log != [] {
      var prefix, r := log[..|log| - 1], log[|log| - 1];
      SelectionIgnoresHiding(prefix);
      if r.action == Publish {
        var rows := PublishRows(log);
        assert rows[..|rows| - 1] == PublishRows(prefix);
      } else {
        assert PublishRows(log) == PublishRows(prefix);
      }
    }
  }

  /** Main result: activity depends only on the publish rows in order and on what is removed or quarantined anywhere. */
  lemma ActiveDependsOn(a: Log, b: Log, ref: string)
    requires PublishRows(a) == PublishRows(b) && RemovedRefs(a) == RemovedRefs(b) && HiddenNames(a) == HiddenNames(b)
    ensures Active(a, ref) <==> Active(b, ref)
    ensures Winner(a, ref) == Winner(b, ref)
  {
    SelectionIgnoresHiding(a);
    SelectionIgnoresHiding(b);
    assert Selected(a) == Selected(b);
    forall r, sha
      ensures TradeSource(a, r, sha) <==> TradeSource(b, r, sha)
    {
      assert Winner(a, r) == Winner(b, r);
    }
  }

  lemma {:induction false} PublishRowsConcat(a: Log, b: Log)
    ensures PublishRows(a + b) == PublishRows(a) + PublishRows(b)
  {
    if b == [] {
      assert a + b == a;
    } else {
      assert (a + b)[..|a + b| - 1] == a + b[..|b| - 1];
      PublishRowsConcat(a, b[..|b| - 1]);
    }
  }

  predicate Rearranged(a: Log, b: Log) {
    multiset(a) == multiset(b) && PublishRows(a) == PublishRows(b)
  }

  lemma SameRowsSameHiding(a: Log, b: Log)
    requires multiset(a) == multiset(b)
    ensures RemovedRefs(a) == RemovedRefs(b) && HiddenNames(a) == HiddenNames(b)
  {
    OneWay(a, b);
    OneWay(b, a);
  }

  lemma OneWay(a: Log, b: Log)
    requires multiset(a) == multiset(b)
    ensures RemovedRefs(a) <= RemovedRefs(b) && HiddenNames(a) <= HiddenNames(b)
  {
    forall r | r in RemovedRefs(a)
      ensures r in RemovedRefs(b)
    {
      var i :| 0 <= i < |a| && a[i].action == Remove && r in RemovedReferences(a[i]);
      assert a[i] in multiset(b);
      var j :| 0 <= j < |b| && b[j] == a[i];
    }
    forall n | n in HiddenNames(a)
      ensures n in HiddenNames(b)
    {
      var i :| 0 <= i < |a| && a[i].action == Quarantine && n in QuarantinedNames(a[i]);
      assert a[i] in multiset(b);
      var j :| 0 <= j < |b| && b[j] == a[i];
    }
  }

  /** Removal and quarantine rows may be moved anywhere in the log. */
  lemma HidingRowsMove(a: Log, b: Log, ref: string)
    requires Rearranged(a, b)
    ensures Active(a, ref) <==> Active(b, ref)
  {
    SameRowsSameHiding(a, b);
    ActiveDependsOn(a, b, ref);
  }

  lemma PublishRowsMoved(a: Log, x: Row, b: Log, c: Log)
    requires x.action != Publish
    ensures PublishRows(a + [x] + b + c) == PublishRows(a + b + c)
  {
    PublishRowsConcat(a + [x] + b, c);
    PublishRowsConcat(a + [x], b);
    assert (a + [x])[..|a|] == a;
    PublishRowsConcat(a + b, c);
    PublishRowsConcat(a, b);
  }

  /** One such move, spelled out. */
  lemma MoveOne(a: Log, x: Row, b: Log, c: Log, ref: string)
    requires x.action != Publish
    ensures Active(a + [x] + b + c, ref) <==> Active(a + b + [x] + c, ref)
  {
    PublishRowsMoved(a, x, b, c);
    PublishRowsMoved(a + b, x, [], c);
    assert a + b + [x] + [] + c == a + b + [x] + c && a + b + [] + c == a + b + c;
    HidingRowsMove(a + [x] + b + c, a + b + [x] + c, ref);
  }

  /** Removal and quarantine are permanent: no later row, republication included, makes the object active again. */
  lemma HidingIsPermanent(log: Log, more: Log, ref: string)
    requires Hidden(log, ref)
    ensures !Active(log + more, ref)
  {
    if ref in RemovedRefs(log) {
      var i :| 0 <= i < |log| && log[i].action == Remove && ref in RemovedReferences(log[i]);
      assert (log + more)[i] == log[i];
      assert ref in RemovedRefs(log + more);
    } else {
      var i :| 0 <= i < |log| && log[i].action == Quarantine && Name(ref) in QuarantinedNames(log[i]);
      assert (log + more)[i] == log[i];
      assert Name(ref) in HiddenNames(log + more);
    }
  }

  // ---------------------------------------------------------------- selection

  predicate PublishesCumulative(log: Log, i: nat, k: GenerationKey)
    requires i < |log|
  {
    log[i].action == Publish && Cumulative(log[i].cls) && KeyOf(log[i]) == k
  }

  /** `i` is the last publication of its generation key. */
  predicate LatestOfKey(log: Log, i: nat)
    requires i < |log|
  {
    && log[i].action == Publish && Cumulative(log[i].cls)
    && forall j :: i < j < |log| ==> !PublishesCumulative(log, j, KeyOf(log[i]))
  }

  predicate DistinctGenerationKeys(g: Generations) {
    forall i, j :: 0 <= i < j < |g| ==> g[i].0 != g[j].0
  }

  lemma {:induction false} PutEntries(g: Generations, k: GenerationKey, r: Row)
    requires DistinctGenerationKeys(g)
    ensures DistinctGenerationKeys(Put(g, k, r))
    ensures forall e :: e in Put(g, k, r) <==> (e in g && e.0 != k) || e == (k, r)
  {
    if g != [] {
      assert g == [g[0]] + g[1..];
      if g[0].0 == k {
        forall e | e in g[1..]
          ensures e.0 != k
        {
          var j :| 0 <= j < |g[1..]| && g[1..][j] == e;
          assert g[j + 1] == e;
        }
      } else {
        PutEntries(g[1..], k, r);
        var tail := Put(g[1..], k, r);
        forall j | 0 <= j < |tail|
          ensures tail[j].0 != g[0].0
        {
          assert tail[j] in tail;
        }
      }
    }
  }

  /** A cumulative row is selected exactly when it is the latest publication of its generation key. */
  lemma {:induction false} LatestCumulativeExactly(log: Log)
    ensures DistinctGenerationKeys(LatestCumulative(log))
    ensures forall e :: e in LatestCumulative(log) <==> exists i :: IsLatest(log, i, e)
  {
    if log != [] {
      var prefix, r := log[..|log| - 1], log[|log| - 1];
      LatestCumulativeExactly(prefix);
      var cumulative := r.action == Publish && Cumulative(r.cls);
      if cumulative {
        PutEntries(LatestCumulative(prefix), KeyOf(r), r);
      }
      assert log == prefix + [r];
      forall e
        ensures e in LatestCumulative(log) <==> exists i :: IsLatest(log, i, e)
      {
        LatestStep(prefix, r, e);
      }
    }
  }

  /** Row `i` is the latest publication of its key and the entry `e`. */
  ghost predicate IsLatest(log: Log, i: int, e: (GenerationKey, Row)) {
    0 <= i < |log| && LatestOfKey(log, i) && e == (KeyOf(log[i]), log[i])
  }

  lemma LatestStays(log: Log, r: Row, i: nat, e: (GenerationKey, Row))
    requires i < |log| && !(r.action == Publish && Cumulative(r.cls) && KeyOf(r) == e.0)
    ensures IsLatest(log, i, e) <==> IsLatest(log + [r], i, e)
  {
    var longer := log + [r];
    assert longer[i] == log[i];
    if IsLatest(log, i, e) {
      forall j | i < j < |longer|
        ensures !PublishesCumulative(longer, j, e.0)
      {
        assert j < |log| ==> !PublishesCumulative(log, j, e.0);
      }
    }
    if IsLatest(longer, i, e) {
      forall j | i < j < |log|
        ensures !PublishesCumulative(log, j, e.0)
      {
        assert !PublishesCumulative(longer, j, e.0);
      }
    }
  }

  lemma LatestReplaced(log: Log, r: Row, i: int, e: (GenerationKey, Row))
    requires r.action == Publish && Cumulative(r.cls) && KeyOf(r) == e.0
    ensures IsLatest(log + [r], i, e) <==> i == |log| && e == (KeyOf(r), r)
  {
    var longer := log + [r];
    assert PublishesCumulative(longer, |log|, e.0);
    assert LatestOfKey(longer, |log|);
  }

  lemma LatestStep(log: Log, r: Row, e: (GenerationKey, Row))
    ensures (exists i :: IsLatest(log + [r], i, e))
            <==>
            if r.action == Publish && Cumulative(r.cls) then
              e == (KeyOf(r), r) || (e.0 != KeyOf(r) && exists i :: IsLatest(log, i, e))
            else exists i :: IsLatest(log, i, e)
  {
    if r.action == Publish && Cumulative(r.cls) && KeyOf(r) == e.0 {
      LatestReplaced(log, r, |log|, e);
      if i :| IsLatest(log + [r], i, e) {
        LatestReplaced(log, r, i, e);
      }
    } else {
      if i :| IsLatest(log, i, e) {
        LatestStays(log, r, i, e);
      }
      if i :| IsLatest(log + [r], i, e) {
        assert i < |log|;
        LatestStays(log, r, i, e);
      }
    }
  }
}
