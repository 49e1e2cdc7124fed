/** The fold of `resolve_active_artifacts` over its sets and dictionaries, proved against the reading of the log. */
module CatalogResolver {
  import opened Common
  import opened Catalog

  /** Reference to winning publication. */
  type Choice = map<string, Publication>

  predicate Suppressed(ref: string, removed: set<string>, quarantined: set<string>) {
    ref in removed || Name(ref) in quarantined
  }

  /** The scan of the rows: quarantined names, removed references, additive rows, latest cumulative rows. */
  method Scan(log: Log)
      returns (quarantined: set<string>, removed: set<string>, additive: seq<Row>, latest: Generations)
    ensures quarantined == HiddenNames(log) && removed == RemovedRefs(log)
    ensures additive == Additive(log) && latest == LatestCumulative(log)
  {
    quarantined, removed, additive, latest := {}, {}, [], [];
    for i := 0 to |log|
      invariant quarantined == HiddenNames(log[..i]) && removed == RemovedRefs(log[..i])
      invariant additive == Additive(log[..i]) && latest == LatestCumulative(log[..i])
    {
      var row := log[i];
      ScanStep(log, i);
      match row.action {
        case Quarantine => quarantined := quarantined + QuarantinedNames(row);
        case Remove => removed := removed + RemovedReferences(row);
        case OtherAction =>
        case Publish =>
          if Cumulative(row.cls) {
            latest := Put(latest, KeyOf(row), row);
          } else {
            additive := additive + [row];
          }
      }
    }
    assert log[..|log|] == log;
  }

  lemma ScanStep(log: Log, i: nat)
    requires i < |log|
    ensures log[..i + 1][..i] == log[..i]
    ensures HiddenNames(log[..i + 1])
            == HiddenNames(log[..i]) + if log[i].action == Quarantine then QuarantinedNames(log[i]) else {}
    ensures RemovedRefs(log[..i + 1])
            == RemovedRefs(log[..i]) + if log[i].action == Remove then RemovedReferences(log[i]) else {}
  {
  }

  /** What `selected_by_reference` holds after the publications `pubs`. */
  ghost predicate Chosen(m: Choice, pubs: seq<Publication>, removed: set<string>, quarantined: set<string>) {
    forall ref ::
      && (ref in m <==> !Suppressed(ref, removed, quarantined) && LastPublication(pubs, ref).Some?)
      && (ref in m ==> m[ref] == LastPublication(pubs, ref).value)
  }

  /** The inner loop: the references of one manifest row, after the publications `before`. */
  method ChooseRow(m0: Choice, pubs: seq<Publication>, ghost before: seq<Publication>,
                   removed: set<string>, quarantined: set<string>) returns (m: Choice)
    requires Chosen(m0, before, removed, quarantined)
    ensures Chosen(m, before + pubs, removed, quarantined)
  {
    m := m0;
    assert before + pubs[..0] == before;
    for j := 0 to |pubs|
      invariant Chosen(m, before + pubs[..j], removed, quarantined)
    {
      assert before + pubs[..j + 1] == before + pubs[..j] + [pubs[j]];
      if !Suppressed(pubs[j].ref, removed, quarantined) {
        m := m[pubs[j].ref := pubs[j]];
      }
    }
    assert pubs[..|pubs|] == pubs;
  }

  method Choose(selected: seq<Row>, removed: set<string>, quarantined: set<string>) returns (m: Choice)
    ensures Chosen(m, Publications(selected), removed, quarantined)
  {
    m := map[];
    for i := 0 to |selected|
      invariant Chosen(m, Publications(selected[..i]), removed, quarantined)
    {
      m := ChooseRow(m, PublicationsOf(selected[i]), Publications(selected[..i]), removed, quarantined);
      assert selected[..i + 1][..i] == selected[..i];
    }
    assert selected[..|selected|] == selected;
  }

  function TradeHashes(m: Choice): set<string> {
    set r | r in m && m[r].row.cls == IndividualTrade && m[r].sha256 != "" :: m[r].sha256
  }

  function KeepDerived(m: Choice): Choice {
    var hashes := TradeHashes(m);
    map r | r in m && (NamesSource(m[r]) ==> m[r].row.sourceParquetSha256 in hashes) :: m[r]
  }

  lemma ChosenAreVisible(log: Log, m: Choice)
    requires Chosen(m, Publications(Selected(log)), RemovedRefs(log), HiddenNames(log))
    ensures forall ref :: ref in m <==> Visible(log, ref)
    ensures forall ref :: ref in m ==> m[ref] == Winner(log, ref).value
    ensures forall sha :: sha in TradeHashes(m) <==> exists source :: TradeSource(log, source, sha)
  {
    forall ref
      ensures ref in m <==> Visible(log, ref)
    {
    }
    forall sha
      ensures sha in TradeHashes(m) <==> exists source :: TradeSource(log, source, sha)
    {
      if sha in TradeHashes(m) {
        var r :| r in m && m[r].row.cls == IndividualTrade && m[r].sha256 != "" && m[r].sha256 == sha;
        assert TradeSource(log, r, sha);
      }
      if source :| TradeSource(log, source, sha) {
        assert source in m;
      }
    }
  }

  datatype ResolveError = Missing(ref: string) | ChecksumMismatch(ref: string)

  /** A recorded object that is absent, or whose content does not hash to the recorded value. */
  predicate Bad(files: map<string, string>, p: Publication) {
    p.ref !in files || (p.sha256 != "" && files[p.ref] != p.sha256)
  }

  /**
   Main result: the resolution succeeds exactly when every active object is present with its recorded hash, and
   then returns exactly the active references with their winning publications.  `files` maps present objects to
   the digests of their content.
   */
  method ResolveActiveArtifacts(log: Log, files: map<string, string>) returns (r: Result<Choice, ResolveError>)
    ensures r.Ok? ==>
              && (forall ref :: ref in r.value <==> Active(log, ref))
              && (forall ref :: ref in r.value ==> r.value[ref] == Winner(log, ref).value)
              && (forall ref :: ref in r.value ==>
                    ref in files && (r.value[ref].sha256 == "" || files[ref] == r.value[ref].sha256))
    ensures r.Err? ==> Active(log, r.error.ref)
    ensures r.Err? && r.error.Missing? ==> r.error.ref !in files
    ensures r.Err? && r.error.ChecksumMismatch? ==>
              && r.error.ref in files && Winner(log, r.error.ref).value.sha256 != ""
              && files[r.error.ref] != Winner(log, r.error.ref).value.sha256
  {
    var quarantined, removed, additive, latest := Scan(log);
    var chosen := Choose(additive + Values(latest), removed, quarantined);
    ChosenAreVisible(log, chosen);
    var kept := KeepDerived(chosen);
    assert forall ref :: ref in kept <==> Active(log, ref);
    assert forall ref :: ref in kept ==> kept[ref] == Winner(log, ref).value;
    WinnersKeepTheirReference(log);
    var todo := kept.Keys;
    while todo != {}
      invariant todo <= kept.Keys
      invariant forall ref :: ref in kept ==> ref in todo || !Bad(files, kept[ref])
      decreases |todo|
    {
      var ref :| ref in todo;
      if ref !in files {
        return Err(Missing(ref));
      }
      if kept[ref].sha256 != "" && files[ref] != kept[ref].sha256 {
        return Err(ChecksumMismatch(ref));
      }
      todo := todo - {ref};
    }
    return Ok(kept);
  }

  lemma {:induction false} LastKeepsReference(pubs: seq<Publication>, ref: string)
    ensures LastPublication(pubs, ref).Some? ==> LastPublication(pubs, ref).value.ref == ref
  {
    if pubs != [] {
      LastKeepsReference(pubs[..|pubs| - 1], ref);
    }
  }

  lemma WinnersKeepTheirReference(log: Log)
    ensures forall ref :: Winner(log, ref).Some? ==> Winner(log, ref).value.ref == ref
  {
    forall ref
      ensures Winner(log, ref).Some? ==> Winner(log, ref).value.ref == ref
    {
      LastKeepsReference(Publications(Selected(log)), ref);
    }
  }

  // ---------------------------------------------------------------- "the latest record is authoritative"

  predicate Publishes(row: Row, ref: string) {
    exists i :: 0 <= i < |PublicationsOf(row)| && PublicationsOf(row)[i].ref == ref
  }

  lemma {:induction false} LastOfConcat(a: seq<Publication>, b: seq<Publication>, ref: string)
    ensures LastPublication(a + b, ref)
            == if LastPublication(b, ref).Some? then LastPublication(b, ref) else LastPublication(a, ref)
  {
    if b == [] {
      assert a + b == a;
    } else {
      assert (a + b)[..|a + b| - 1] == a + b[..|b| - 1];
      LastOfConcat(a, b[..|b| - 1], ref);
    }
  }

  lemma {:induction false} NoneAmong(pubs: seq<Publication>, ref: string)
    requires forall i :: 0 <= i < |pubs| ==> pubs[i].ref != ref
    ensures LastPublication(pubs, ref).None?
  {
    if pubs != [] {
      NoneAmong(pubs[..|pubs| - 1], ref);
    }
  }

  lemma {:induction false} NoneInRows(rows: seq<Row>, ref: string)
    requires forall r :: r in rows ==> !Publishes(r, ref)
    ensures LastPublication(Publications(rows), ref).None?
  {
    if rows != [] {
      NoneInRows(rows[..|rows| - 1], ref);
      assert rows[|rows| - 1] in rows;
      assert !Publishes(rows[|rows| - 1], ref);
      NoneAmong(PublicationsOf(rows[|rows| - 1]), ref);
      LastOfConcat(Publications(rows[..|rows| - 1]), PublicationsOf(rows[|rows| - 1]), ref);
    }
  }

  lemma {:induction false} PublicationsConcat(a: seq<Row>, b: seq<Row>)
    ensures Publications(a + b) == Publications(a) + Publications(b)
  {
    if b == [] {
      assert a + b == a;
    } else {
      var prefix, last := b[..|b| - 1], PublicationsOf(b[|b| - 1]);
      assert (a + b)[..|a + b| - 1] == a + prefix;
      PublicationsConcat(a, prefix);
    }
  }

  lemma LastOfAppended(rows: seq<Row>, r: Row, ref: string)
    ensures LastPublication(Publications(rows + [r]), ref)
            == if LastPublication(PublicationsOf(r), ref).Some? then LastPublication(PublicationsOf(r), ref)
               else LastPublication(Publications(rows), ref)
  {
    assert (rows + [r])[..|rows|] == rows;
    LastOfConcat(Publications(rows), PublicationsOf(r), ref);
  }

  predicate SameLast(a: seq<Row>, b: seq<Row>, ref: string) {
    LastPublication(Publications(a), ref) == LastPublication(Publications(b), ref)
  }

  lemma AdditiveOrderStep(prefix: Log, r: Row, ref: string)
    requires SameLast(Additive(prefix), PublishRows(prefix), ref)
    requires r.action == Publish && Cumulative(r.cls) ==> !Publishes(r, ref)
    ensures SameLast(Additive(prefix + [r]), PublishRows(prefix + [r]), ref)
  {
    if r.action != Publish {
      assert PublishRows(prefix) + [] == PublishRows(prefix) && Additive(prefix) + [] == Additive(prefix);
    } else {
      LastOfAppended(PublishRows(prefix), r, ref);
      if Cumulative(r.cls) {
        NoneAmong(PublicationsOf(r), ref);
        assert Additive(prefix) + [] == Additive(prefix);
      } else {
        LastOfAppended(Additive(prefix), r, ref);
      }
    }
  }

  lemma {:induction false} AdditiveInLogOrder(log: Log, ref: string)
    requires forall r :: r in log && r.action == Publish && Cumulative(r.cls) ==> !Publishes(r, ref)
    ensures SameLast(Additive(log), PublishRows(log), ref)
  {
    if log != [] {
      var prefix, r := log[..|log| - 1], log[|log| - 1];
      AdditiveInLogOrder(prefix, ref);
      assert log == prefix + [r] && r in log;
      AdditiveOrderStep(prefix, r, ref);
    }
  }

  /** For a path no cumulative dataset publishes, the record written last in the log is authoritative. */
  lemma AdditiveLatestWins(log: Log, ref: string)
    requires forall r :: r in log && r.action == Publish && Cumulative(r.cls) ==> !Publishes(r, ref)
    ensures Winner(log, ref) == LastPublication(Publications(PublishRows(log)), ref)
  {
    LatestCumulativeExactly(log);
    var values := Values(LatestCumulative(log));
    forall r | r in values
      ensures !Publishes(r, ref)
    {
      var j :| 0 <= j < |values| && values[j] == r;
      assert LatestCumulative(log)[j] in LatestCumulative(log);
      var i :| IsLatest(log, i, LatestCumulative(log)[j]);
      assert log[i] in log;
    }
    NoneInRows(values, ref);
    PublicationsConcat(Additive(log), values);
    LastOfConcat(Publications(Additive(log)), Publications(values), ref);
    AdditiveInLogOrder(log, ref);
  }

  function FundingRow(symbol: string, sha: string): Row {
    Row("m.jsonl", Publish, FundingRate, "x.parquet", [], [sha], "", [], [], "", "", "", symbol, "")
  }

  lemma SelectedOrder(a0: Row, b: Row, a2: Row)
    requires a0.action == b.action == a2.action == Publish
    requires Cumulative(a0.cls) && Cumulative(b.cls) && Cumulative(a2.cls)
    requires KeyOf(a0) == KeyOf(a2) != KeyOf(b)
    ensures Selected([a0, b, a2]) == [a2, b]
  {
    var log := [a0, b, a2];
    assert log[..2] == [a0, b] && [a0, b][..1] == [a0] && [a0][..0] == [];
    assert LatestCumulative([a0]) == [(KeyOf(a0), a0)];
    assert Put([(KeyOf(a0), a0)], KeyOf(b), b) == [(KeyOf(a0), a0)] + Put([], KeyOf(b), b);
    assert LatestCumulative([a0, b]) == [(KeyOf(a0), a0), (KeyOf(b), b)];
    assert LatestCumulative(log) == [(KeyOf(a0), a2), (KeyOf(b), b)];
    assert Additive([a0]) == [] && Additive([a0, b]) == [] && Additive(log) == [];
  }

  /**
   The comment in the source calls the latest record of a path authoritative.  Two generation keys that publish
   one path do not obey it: the winner is the key that appeared later, not the record that was written later.
   */
  lemma LatestRecordCanLose()
    ensures var log := [FundingRow("A", "h0"), FundingRow("B", "h1"), FundingRow("A", "h2")];
            Winner(log, "x.parquet") == Some(Publication("x.parquet", "h1", FundingRow("B", "h1")))
  {
    var a0, b, a2 := FundingRow("A", "h0"), FundingRow("B", "h1"), FundingRow("A", "h2");
    assert KeyOf(a0).symbolOrInstrument == "A" && KeyOf(b).symbolOrInstrument == "B";
    assert "A"[0] != "B"[0];
    SelectedOrder(a0, b, a2);
    var p := Publication("x.parquet", "h1", b);
    PublishesX(b);
    PublicationsConcat([a2], [b]);
    assert [b][..0] == [];
    assert Publications([b]) == [p];
    LastOfConcat(Publications([a2]), [p], "x.parquet");
  }

  lemma PublishesX(row: Row)
    requires row.objectId == "x.parquet" && row.createdParquets == [] && |row.parquetSha256| == 1
    ensures PublicationsOf(row) == [Publication("x.parquet", row.parquetSha256[0], row)]
  {
    assert IsParquet("x.parquet");
    assert NormaliseRef("x.parquet") == "x.parquet";
  }
}
