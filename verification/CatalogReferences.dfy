/** Which paths a manifest row publishes, removes or quarantines, and what that makes of a path, in terms of the
    columns of the rows. */
module CatalogReferences {
  import opened Common
  import opened Catalog

  // ---------------------------------------------------------------- texts and paths

  predicate SameLetter(c: char, lower: char) {
    c == lower || ('A' <= c <= 'Z' && c - 'A' + 'a' == lower)
  }

  /** `value.lower().endswith(".parquet")`. */
  predicate EndsInParquet(value: string) {
    && |value| >= 8
    && var tail := value[|value| - 8..];
       && tail[0] == '.' && SameLetter(tail[1], 'p') && SameLetter(tail[2], 'a') && SameLetter(tail[3], 'r')
       && SameLetter(tail[4], 'q') && SameLetter(tail[5], 'u') && SameLetter(tail[6], 'e') && SameLetter(tail[7], 't')
  }

  /** `path` is `value` with forward slashes. */
  predicate Slashed(value: string, path: string) {
    |path| == |value| && forall i :: 0 <= i < |value| ==> path[i] == if value[i] == '\\' then '/' else value[i]
  }

  /** `name` is what follows the last slash of `path`, or all of a path without one. */
  predicate LastComponent(name: string, path: string) {
    '/' !in name && (path == name || exists k :: 0 <= k < |path| && path[..k] + "/" + name == path)
  }

  lemma ParquetExactly(value: string)
    ensures IsParquet(value) <==> EndsInParquet(value)
  {
    var suffix := ".parquet";
    if |value| >= 8 {
      var tail := value[|value| - 8..];
      assert forall i :: 0 <= i < 8 ==> tail[i] == value[|value| - 8 + i];
      assert suffix[0] == '.' && suffix[1] == 'p' && suffix[2] == 'a' && suffix[3] == 'r';
      assert suffix[4] == 'q' && suffix[5] == 'u' && suffix[6] == 'e' && suffix[7] == 't';
      forall i | 0 <= i < 8
        ensures Lower(value[|value| - 8 + i]) == suffix[i] <==> SameLetter(tail[i], suffix[i])
      {
      }
    }
  }

  lemma SlashedExactly(value: string, path: string)
    ensures Slashed(value, path) <==> path == NormaliseRef(value)
  {
  }

  lemma ComponentGrows(name: string, path: string, c: char)
    requires LastComponent(name, path) && c != '/'
    ensures LastComponent(name + [c], path + [c])
  {
    if path != name {
      var k :| 0 <= k < |path| && path[..k] + "/" + name == path;
      assert (path + [c])[..k] == path[..k];
      assert path[..k] + "/" + (name + [c]) == path[..k] + "/" + name + [c];
    }
  }

  lemma {:induction false} NameIsLast(path: string)
    ensures LastComponent(Name(path), path)
  {
    if path == [] {
    } else if path[|path| - 1] == '/' {
      assert path[..|path| - 1] + "/" + [] == path;
    } else {
      NameIsLast(path[..|path| - 1]);
      ComponentGrows(Name(path[..|path| - 1]), path[..|path| - 1], path[|path| - 1]);
      assert path == path[..|path| - 1] + [path[|path| - 1]];
    }
  }

  lemma LastComponentUnique(a: string, b: string, path: string)
    requires LastComponent(a, path) && LastComponent(b, path)
    ensures a == b
  {
    if |a| < |b| {
      LongerHasSlash(a, b, path);
    } else if |b| < |a| {
      LongerHasSlash(b, a, path);
    } else {
      assert path[|path| - |a|..] == a && path[|path| - |b|..] == b;
    }
  }

  lemma LongerHasSlash(a: string, b: string, path: string)
    requires LastComponent(a, path) && |a| < |b|
    requires path == b || exists k :: 0 <= k < |path| && path[..k] + "/" + b == path
    ensures '/' in b
  {
    var k :| 0 <= k < |path| && path[..k] + "/" + a == path;
    assert path[|path| - |a| - 1] == '/';
    assert path[|path| - |b|..] == b;
    assert b[|b| - |a| - 1] == '/';
  }

  // ---------------------------------------------------------------- what hides a path

  /** Some removal row names the path: in its object id or among its superseded and deleted ids. */
  ghost predicate RemovedByRow(log: Log, path: string) {
    exists i, v :: 0 <= i < |log| && log[i].action == Remove && (v == log[i].objectId || v in log[i].removedIds)
                   && EndsInParquet(v) && Slashed(v, path)
  }

  /** Some quarantine row names the last component of the path: that of one of its quarantined files. */
  ghost predicate QuarantinedByRow(log: Log, path: string) {
    exists i, v, w, name :: 0 <= i < |log| && log[i].action == Quarantine && v in log[i].quarantinedParquets
                            && Slashed(v, w) && LastComponent(name, w) && LastComponent(name, path)
  }

  lemma RemovedExactly(log: Log, path: string)
    ensures path in RemovedRefs(log) <==> RemovedByRow(log, path)
  {
    if path in RemovedRefs(log) {
      var i :| 0 <= i < |log| && log[i].action == Remove && path in RemovedReferences(log[i]);
      var v :| v in [log[i].objectId] + log[i].removedIds && IsParquet(v) && NormaliseRef(v) == path;
      ParquetExactly(v);
      SlashedExactly(v, path);
    }
    if i, v :| 0 <= i < |log| && log[i].action == Remove && (v == log[i].objectId || v in log[i].removedIds)
               && EndsInParquet(v) && Slashed(v, path) {
      ParquetExactly(v);
      SlashedExactly(v, path);
      assert v in [log[i].objectId] + log[i].removedIds;
      assert path in RemovedReferences(log[i]);
    }
  }

  lemma QuarantinedExactly(log: Log, path: string)
    ensures Name(path) in HiddenNames(log) <==> QuarantinedByRow(log, path)
  {
    NameIsLast(path);
    if Name(path) in HiddenNames(log) {
      var i :| 0 <= i < |log| && log[i].action == Quarantine && Name(path) in QuarantinedNames(log[i]);
      var v :| v in log[i].quarantinedParquets && Name(NormaliseRef(v)) == Name(path);
      SlashedExactly(v, NormaliseRef(v));
      NameIsLast(NormaliseRef(v));
    }
    if i, v, w, name :| 0 <= i < |log| && log[i].action == Quarantine && v in log[i].quarantinedParquets
                        && Slashed(v, w) && LastComponent(name, w) && LastComponent(name, path) {
      SlashedExactly(v, w);
      NameIsLast(w);
      LastComponentUnique(Name(w), name, w);
      LastComponentUnique(Name(path), name, path);
      assert Name(path) in QuarantinedNames(log[i]);
    }
  }

  /** The path is not hidden by any row and something selected publishes it. */
  ghost predicate Stands(log: Log, path: string) {
    !RemovedByRow(log, path) && !QuarantinedByRow(log, path) && Winner(log, path).Some?
  }

  lemma StandsExactly(log: Log, path: string)
    ensures Stands(log, path) <==> Visible(log, path)
  {
    RemovedExactly(log, path);
    QuarantinedExactly(log, path);
  }

  /**
   Main result: a path is active exactly when no row removes or quarantines it, something selected publishes it, and,
   if that is a derived bucket that names a source hash, an individual-trade path that stands has that hash.
   */
  lemma ActiveExactly(log: Log, path: string)
    ensures Active(log, path)
            <==> && Stands(log, path)
                 && (Winner(log, path).value.row.cls == DerivedBucket
                     && Winner(log, path).value.row.sourceParquetSha256 != "" ==>
                       exists source :: Stands(log, source) && Winner(log, source).value.row.cls == IndividualTrade
                         && Winner(log, source).value.sha256 == Winner(log, path).value.row.sourceParquetSha256)
  {
    StandsExactly(log, path);
    if Visible(log, path) && NamesSource(Winner(log, path).value) {
      var sha := Winner(log, path).value.row.sourceParquetSha256;
      forall source
        ensures TradeSource(log, source, sha)
                <==> Stands(log, source) && Winner(log, source).value.row.cls == IndividualTrade
                     && Winner(log, source).value.sha256 == sha
      {
        StandsExactly(log, source);
      }
    }
  }

  /** A removed path is inactive, wherever the removal row stands. */
  lemma RemovalDeactivates(log: Log, i: nat, v: string, path: string)
    requires i < |log| && log[i].action == Remove && (v == log[i].objectId || v in log[i].removedIds)
    requires EndsInParquet(v) && Slashed(v, path)
    ensures !Active(log, path)
  {
    ActiveExactly(log, path);
  }

  // ---------------------------------------------------------------- what a row publishes

  /** How many paths come before the created files: the object id, when it is a Parquet file. */
  function Offset(row: Row): nat {
    if EndsInParquet(row.objectId) then 1 else 0
  }

  /** The recorded hash at a position, or none. */
  function HashAt(row: Row, k: nat): string {
    if k < |row.parquetSha256| then row.parquetSha256[k] else ""
  }

  /** Main result: a row publishes its Parquet object id and its created files, each with the hash at its position. */
  lemma PublicationsExactly(row: Row)
    ensures |PublicationsOf(row)| == Offset(row) + |row.createdParquets|
    ensures EndsInParquet(row.objectId) ==> Records(PublicationsOf(row)[0], row.objectId, HashAt(row, 0), row)
    ensures forall k :: 0 <= k < |row.createdParquets| ==>
              Records(PublicationsOf(row)[Offset(row) + k], row.createdParquets[k], HashAt(row, Offset(row) + k), row)
  {
    RefsExactly(row);
    forall k | 0 <= k < |ArtifactRefs(row)|
      ensures Records(PublicationsOf(row)[k], ArtifactRefs(row)[k], HashAt(row, k), row)
    {
      PublicationAt(row, k);
    }
  }

  predicate Records(p: Publication, value: string, sha256: string, row: Row) {
    Slashed(value, p.ref) && p.sha256 == sha256 && p.row == row
  }

  lemma RefsExactly(row: Row)
    ensures |ArtifactRefs(row)| == Offset(row) + |row.createdParquets|
    ensures EndsInParquet(row.objectId) ==> ArtifactRefs(row)[0] == row.objectId
    ensures forall k :: 0 <= k < |row.createdParquets| ==> ArtifactRefs(row)[Offset(row) + k] == row.createdParquets[k]
  {
    ParquetExactly(row.objectId);
  }

  lemma PublicationAt(row: Row, k: nat)
    requires k < |ArtifactRefs(row)|
    ensures Records(PublicationsOf(row)[k], ArtifactRefs(row)[k], HashAt(row, k), row)
  {
    SlashedExactly(ArtifactRefs(row)[k], NormaliseRef(ArtifactRefs(row)[k]));
  }

  /** Two cumulative rows are generations of one thing exactly when these seven columns agree. */
  lemma GenerationsExactly(a: Row, b: Row)
    ensures KeyOf(a) == KeyOf(b)
            <==> && a.manifest == b.manifest && a.cls == b.cls && a.sourceDatasetId == b.sourceDatasetId
                 && a.exchange == b.exchange && a.marketType == b.marketType
                 && a.symbolOrInstrument == b.symbolOrInstrument && a.period == b.period
  {
  }

  // ---------------------------------------------------------------- what is selected

  lemma {:induction false} AdditiveExactly(log: Log, r: Row)
    ensures r in Additive(log) <==> r in log && r.action == Publish && !Cumulative(r.cls)
  {
    if log != [] {
      AdditiveExactly(log[..|log| - 1], r);
      assert log == log[..|log| - 1] + [log[|log| - 1]];
    }
  }

  lemma CumulativeSelected(log: Log, r: Row)
    ensures r in Values(LatestCumulative(log)) <==> exists i :: 0 <= i < |log| && LatestOfKey(log, i) && log[i] == r
  {
    LatestCumulativeExactly(log);
    var values := Values(LatestCumulative(log));
    if r in values {
      var j :| 0 <= j < |values| && values[j] == r;
      assert LatestCumulative(log)[j] in LatestCumulative(log);
      var i :| IsLatest(log, i, LatestCumulative(log)[j]);
    }
    if i :| 0 <= i < |log| && LatestOfKey(log, i) && log[i] == r {
      assert IsLatest(log, i, (KeyOf(r), r));
      assert (KeyOf(r), r) in LatestCumulative(log);
      var j :| 0 <= j < |LatestCumulative(log)| && LatestCumulative(log)[j] == (KeyOf(r), r);
      assert values[j] == r;
    }
  }

  /**
   Main result: of funding rates, open interest and liquidations only the last publication of each generation is
   selected; every publication of any other dataset is.
   */
  lemma SelectedExactly(log: Log, r: Row)
    ensures r in Selected(log)
            <==> if r.cls == FundingRate || r.cls == OpenInterest || r.cls == Liquidations then
                   exists i :: 0 <= i < |log| && log[i] == r && r.action == Publish
                     && forall j :: i < j < |log| ==> !(log[j].action == Publish && KeyOf(log[j]) == KeyOf(r))
                 else r in log && r.action == Publish
  {
    AdditiveExactly(log, r);
    CumulativeSelected(log, r);
    forall i | 0 <= i < |log| && log[i] == r && Cumulative(r.cls)
      ensures LatestOfKey(log, i)
              <==> r.action == Publish
                   && forall j :: i < j < |log| ==> !(log[j].action == Publish && KeyOf(log[j]) == KeyOf(r))
    {
      forall j | i < j < |log|
        ensures PublishesCumulative(log, j, KeyOf(r)) <==> log[j].action == Publish && KeyOf(log[j]) == KeyOf(r)
      {
        assert KeyOf(log[j]) == KeyOf(r) ==> log[j].cls == r.cls;
      }
    }
  }
}
