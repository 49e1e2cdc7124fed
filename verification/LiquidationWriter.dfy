/** The loops and writes of binance/liquidations.py, proved against the store specification. */
module LiquidationWriter {
  import opened Common
  import opened LiquidationMerge
  import opened LiquidationGenerations
  import opened LiquidationStore

  method LeastName(names: set<nat>) returns (n: nat)
    requires names != {}
    ensures n == Least(names)
  {
    n :| n in names;
    var rest := names - {n};
    while rest != {}
      invariant rest <= names && n in names
      invariant forall x :: x in names ==> x in rest || n <= x
      decreases |rest|
    {
      var x :| x in rest;
      rest := rest - {x};
      if x < n {
        n := x;
      }
    }
  }

  method Listing(names: set<nat>) returns (order: seq<nat>)
    ensures order == SortedNames(names)
  {
    order := [];
    var rest := names;
    while rest != {}
      invariant order + SortedNames(rest) == SortedNames(names)
      decreases |rest|
    {
      var n := LeastName(rest);
      rest := rest - {n};
      order := order + [n];
    }
  }

  /** One pass of `rows_by_key.setdefault` over `rows`. */
  method AddAll(dictionary: seq<Row>, rows: seq<Row>, ghost seen: seq<Row>) returns (d: seq<Row>)
    requires dictionary == Dedup(seen)
    ensures d == Dedup(seen + rows)
  {
    d := dictionary;
    assert seen + rows[..0] == seen;
    for i := 0 to |rows|
      invariant d == Dedup(seen + rows[..i])
    {
      assert seen + rows[..i + 1] == seen + rows[..i] + [rows[i]];
      d := SetDefault(d, rows[i]);
    }
    assert rows[..|rows|] == rows;
  }

  /** `unique_records.setdefault(record.dedup_fingerprint, record)` over the batch. */
  method Unique(records: seq<Row>) returns (u: seq<Row>)
    ensures u == UniqueFingerprints(records)
  {
    u := [];
    for i := 0 to |records|
      invariant u == UniqueFingerprints(records[..i])
    {
      assert records[..i + 1][..i] == records[..i];
      if !HasFingerprint(u, records[i].fingerprint) {
        u := u + [records[i]];
      }
    }
    assert records[..|records|] == records;
  }

  /** Everything before the first write. */
  method PrepareBatch(env: Env, batch: Batch, diskOk: bool) returns (r: Result<Option<Prepared>, PersistError>)
    ensures r == Prepare(env, batch, diskOk)
  {
    if batch.symbol != "BTCUSDT" && batch.symbol != "ETHUSDT" {
      return Err(UnsupportedSymbol);
    }
    if batch.messages == [] {
      return Ok(None);
    }
    if !diskOk {
      return Err(LowDisk);
    }
    var records := [];
    for i := 0 to |batch.messages|
      invariant |records| == i
      invariant forall j :: 0 <= j < i ==>
          Parses(batch.symbol, batch.messages[j]) && records[j] == batch.messages[j].record.value
    {
      if !Parses(batch.symbol, batch.messages[i]) {
        return Err(InvalidMessage);
      }
      records := records + [batch.messages[i].record.value];
    }
    assert forall j :: 0 <= j < |batch.messages| ==> Parses(batch.symbol, batch.messages[j]);
    assert records == Records(batch.messages);
    var day := records[0].tradeTimeMs / DAY_MS;
    if exists i :: 0 <= i < |records| && records[i].tradeTimeMs / DAY_MS != day {
      return Err(SpansDates);
    }
    var unique := Unique(records);
    return Ok(Some(Prepared(batch.symbol, Texts(batch.messages), Sort(unique), day, env.yearOf(day))));
  }

  datatype Outcome = NoEvent | Raised(error: PersistError) | Crashed | Persisted(rows: nat, newRows: nat)

  /** What a call that completed its merge answers: the merged rows, and those beyond the largest file before it. */
  ghost predicate AnswersPublished(env: Env, st: Store, p: Prepared, stages: nat, out: Outcome)
    requires p.rows != []
  {
    var g := PublishGeneration(env, st, p);
    if stages <= 1 then out == Crashed
    else if g.Err? then out == Raised(MergeFailed)
    else if stages <= 3 then out == Crashed
    else exists previousRows: nat ::
           && IsMaxRows(DirFiles(st.years, DirOf(p)), previousRows)
           && out == Persisted(g.value.rows, NewRows(g.value.rows, previousRows))
  }

  /** What persist answers on a store, or raises. */
  ghost predicate Answers(env: Env, st: Store, c: Call, out: Outcome) {
    match Prepare(env, c.batch, c.diskOk)
    case Err(e) => out == Raised(e)
    case Ok(None) => out == NoEvent
    case Ok(Some(p)) =>
      PreparedIsNonEmpty(env, c.batch, c.diskOk);
      if c.stages == 0 then out == Crashed
      else if PutRaw(env, st, p).Err? then out == Raised(RawConflict)
      else AnswersPublished(env, st, p, c.stages, out)
  }

  class Writer {
    const env: Env
    var raw: map<RawName, seq<string>>
    var years: map<YearDir, Files>
    var manifest: seq<ManifestRow>
    var checkpoints: map<string, Checkpoint>

    function View(): Store
      reads this
    {
      Store(raw, years, manifest, checkpoints)
    }

    constructor (env: Env)
      ensures View() == EMPTY && this.env == env
    {
      this.env := env;
      raw, years, manifest, checkpoints := map[], map[], [], map[];
    }

    /** merge_and_write_binance_liquidation_parquet. */
    method MergeAndWrite(dir: YearDir, batch: seq<Row>) returns (r: Result<Published, MergeError>)
      modifies this`years
      ensures r == Merge(env.generationTag, DirFiles(old(years), dir), batch)
      ensures years == if r.Ok? then old(years)[dir := r.value.files] else old(years)
    {
      var files := DirFiles(years, dir);
      var order := Listing(files.Keys);
      SortedNamesElements(files.Keys);
      var rowsByKey := [];
      for i := 0 to |order|
        invariant years == old(years)
        invariant rowsByKey == Dedup(ReadAll(files, order[..i]))
      {
        assert order[i] in order;
        assert order[..i + 1][..i] == order[..i];
        rowsByKey := AddAll(rowsByKey, files[order[i]], ReadAll(files, order[..i]));
      }
      assert order[..|order|] == order;
      rowsByKey := AddAll(rowsByKey, batch, AllRows(files));
      var ordered := Sort(rowsByKey);
      if !SingleSymbol(ordered) {
        return Err(MixedSymbols);
      }
      var published := Publish(env.generationTag, files, ordered);
      years := years[dir := published.files];
      return Ok(published);
    }

    /** `max(num_rows of the existing files, default=0)`. */
    method PreviousRows(files: Files) returns (n: nat)
      ensures IsMaxRows(files, n)
    {
      n := 0;
      var rest := files.Keys;
      while rest != {}
        invariant rest <= files.Keys
        invariant forall f :: f in files ==> f in rest || |files[f]| <= n
        invariant if rest == files.Keys then n == 0 else n == 0 || exists f :: f in files && |files[f]| == n
        invariant rest != files.Keys && n == 0 ==> exists f :: f in files && |files[f]| == 0
        decreases |rest|
      {
        var f :| f in rest;
        rest := rest - {f};
        if |files[f]| > n {
          n := |files[f]|;
        }
        assert n == 0 ==> |files[f]| == 0;
      }
    }

    /** The manifest line and the checkpoint. */
    method Record(p: Prepared, g: Published, stages: nat)
      requires p.rows != [] && g.name in g.files
      modifies this`manifest, this`checkpoints
      ensures View() == PersistRecorded(env, old(View()), p, g, stages)
    {
      if stages <= 2 {
        return;
      }
      var row := ManifestRowOf(env, p, g);
      manifest := AppendOnce(manifest, row);
      if stages > 3 {
        checkpoints := checkpoints[p.symbol := CheckpointOf(p, row)];
      }
    }

    method PublishAndRecord(p: Prepared, stages: nat) returns (out: Outcome)
      requires p.rows != []
      modifies this
      ensures View() == PersistPublished(env, old(View()), p, stages)
      ensures AnswersPublished(env, old(View()), p, stages, out)
    {
      if stages <= 1 {
        return Crashed;
      }
      var previousRows := PreviousRows(DirFiles(years, DirOf(p)));
      var merged := MergeAndWrite(DirOf(p), p.rows);
      if merged.Err? {
        return Raised(MergeFailed);
      }
      Record(p, merged.value, stages);
      if stages <= 3 {
        return Crashed;
      }
      return Persisted(merged.value.rows, NewRows(merged.value.rows, previousRows));
    }

    /** persist_binance_liquidation_batch, stopped by a crash after `stages` writes. */
    method Persist(batch: Batch, diskOk: bool, stages: nat) returns (out: Outcome)
      modifies this
      ensures View() == PersistCall(env, old(View()), Call(batch, diskOk, stages))
      ensures Answers(env, old(View()), Call(batch, diskOk, stages), out)
    {
      var prepared := PrepareBatch(env, batch, diskOk);
      if prepared.Err? {
        return Raised(prepared.error);
      }
      if prepared.value.None? {
        return NoEvent;
      }
      PreparedIsNonEmpty(env, batch, diskOk);
      var p := prepared.value.value;
      if stages == 0 {
        return Crashed;
      }
      var name := RawNameOf(env, p);
      if name !in raw {
        raw := raw[name := p.lines];
      } else if raw[name] != p.lines {
        return Raised(RawConflict);
      }
      out := PublishAndRecord(p, stages);
    }
  }
}
