/** What one persisted batch records about itself: which batches are refused, and the columns of its manifest row
    and checkpoint, in terms of the messages and of everything merged before. */
module LiquidationRecords {
  import opened Common
  import opened LiquidationMerge
  import opened LiquidationGenerations
  import opened LiquidationStore
  import opened LiquidationWriter

  // ---------------------------------------------------------------- which batches are refused

  predicate AllParse(batch: Batch) {
    forall i :: 0 <= i < |batch.messages| ==>
      batch.messages[i].record.Some? && batch.messages[i].record.value.symbol == batch.symbol
  }

  /** All records carry a trade time of one UTC day. */
  predicate OneDay(batch: Batch)
    requires AllParse(batch)
  {
    forall i, j :: 0 <= i < j < |batch.messages| ==>
      batch.messages[i].record.value.tradeTimeMs / 86_400_000 == batch.messages[j].record.value.tradeTimeMs / 86_400_000
  }

  predicate Supported(symbol: string) {
    symbol == "BTCUSDT" || symbol == "ETHUSDT"
  }

  /** Main result: a batch is refused exactly for these reasons, the first that applies being reported. */
  lemma RefusedExactly(env: Env, batch: Batch, diskOk: bool)
    ensures var r := Prepare(env, batch, diskOk);
            if !Supported(batch.symbol) then r == Err(UnsupportedSymbol)
            else if batch.messages == [] then r == Ok(None)
            else if !diskOk then r == Err(LowDisk)
            else if !AllParse(batch) then r == Err(InvalidMessage)
            else if !OneDay(batch) then r == Err(SpansDates)
            else r.Ok? && r.value.Some?
  {
    if Supported(batch.symbol) && batch.messages != [] && diskOk {
      ParsingExactly(batch);
      if AllParse(batch) {
        DaysExactly(batch);
      }
    }
  }

  lemma ParsingExactly(batch: Batch)
    ensures AllParse(batch) <==> !exists i :: 0 <= i < |batch.messages| && !Parses(batch.symbol, batch.messages[i])
  {
    if !exists i :: 0 <= i < |batch.messages| && !Parses(batch.symbol, batch.messages[i]) {
      forall i | 0 <= i < |batch.messages|
        ensures batch.messages[i].record.Some? && batch.messages[i].record.value.symbol == batch.symbol
      {
        assert Parses(batch.symbol, batch.messages[i]);
      }
    }
  }

  lemma DaysExactly(batch: Batch)
    requires AllParse(batch) && batch.messages != []
    ensures var records := Records(batch.messages);
            OneDay(batch)
            <==> !(exists i :: 0 <= i < |records| && records[i].tradeTimeMs / DAY_MS != records[0].tradeTimeMs / DAY_MS)
  {
    var records := Records(batch.messages);
    if !exists i :: 0 <= i < |records| && records[i].tradeTimeMs / DAY_MS != records[0].tradeTimeMs / DAY_MS {
      forall i | 0 <= i < |records|
        ensures batch.messages[i].record.value.tradeTimeMs / 86_400_000 == records[0].tradeTimeMs / 86_400_000
      {
        assert records[i].tradeTimeMs / DAY_MS == records[0].tradeTimeMs / DAY_MS;
      }
    }
    if OneDay(batch) {
      forall i | 0 <= i < |records|
        ensures records[i].tradeTimeMs / DAY_MS == records[0].tradeTimeMs / DAY_MS
      {
        assert i > 0 ==> batch.messages[0].record.value.tradeTimeMs / 86_400_000
                         == batch.messages[i].record.value.tradeTimeMs / 86_400_000;
      }
    }
  }

  // ---------------------------------------------------------------- the rows of a batch

  /** Record `i` is the first of the batch with its fingerprint. */
  predicate FirstOfFingerprint(records: seq<Row>, i: int) {
    0 <= i < |records| && forall j :: 0 <= j < i ==> records[j].fingerprint != records[i].fingerprint
  }

  function Fingerprints(records: seq<Row>): set<nat> {
    set r | r in records :: r.fingerprint
  }

  lemma KeptExactly(records: seq<Row>, x: Row)
    ensures x in UniqueFingerprints(records) <==> exists i :: FirstOfFingerprint(records, i) && records[i] == x
  {
    UniqueIsFirst(records, x);
    if i :| 0 <= i < |records| && records[i] == x && !HasFingerprint(records[..i], x.fingerprint) {
      forall j | 0 <= j < i
        ensures records[j].fingerprint != records[i].fingerprint
      {
        assert records[..i][j] == records[j];
      }
      assert FirstOfFingerprint(records, i);
    }
    if i :| FirstOfFingerprint(records, i) && records[i] == x {
      assert !HasFingerprint(records[..i], x.fingerprint);
    }
  }

  lemma {:induction false} FingerprintCount(rows: seq<Row>)
    requires forall i, j :: 0 <= i < j < |rows| ==> rows[i].fingerprint != rows[j].fingerprint
    ensures |Fingerprints(rows)| == |rows|
  {
    if rows != [] {
      var prefix, last := rows[..|rows| - 1], rows[|rows| - 1];
      FingerprintCount(prefix);
      assert rows == prefix + [last];
      assert Fingerprints(rows) == Fingerprints(prefix) + {last.fingerprint};
    }
  }

  lemma SameFingerprints(records: seq<Row>)
    ensures Fingerprints(UniqueFingerprints(records)) == Fingerprints(records)
  {
    UniqueFingerprintsMembers(records);
    forall f: nat
      ensures f in Fingerprints(records) <==> HasFingerprint(records, f)
      ensures f in Fingerprints(UniqueFingerprints(records)) <==> HasFingerprint(UniqueFingerprints(records), f)
    {
      FingerprintMember(records, f);
      FingerprintMember(UniqueFingerprints(records), f);
    }
  }

  lemma FingerprintMember(rows: seq<Row>, f: nat)
    ensures f in Fingerprints(rows) <==> HasFingerprint(rows, f)
  {
    if HasFingerprint(rows, f) {
      var i :| 0 <= i < |rows| && rows[i].fingerprint == f;
      assert rows[i] in rows;
    }
  }

  /** `rows` are the first records of each fingerprint. */
  ghost predicate HoldsFirsts(rows: seq<Row>, records: seq<Row>) {
    forall x :: x in rows <==> exists i :: FirstOfFingerprint(records, i) && records[i] == x
  }

  predicate InTime(rows: seq<Row>) {
    forall a, b :: 0 <= a < b < |rows| ==> rows[a].tradeTimeMs <= rows[b].tradeTimeMs
  }

  /** The prepared rows: the first record of each fingerprint, in order of time. */
  lemma SortedRows(records: seq<Row>, symbol: string)
    requires forall i :: 0 <= i < |records| ==> records[i].symbol == symbol
    ensures |Sort(UniqueFingerprints(records))| == |Fingerprints(records)|
    ensures HoldsFirsts(Sort(UniqueFingerprints(records)), records) && InTime(Sort(UniqueFingerprints(records)))
  {
    var unique := UniqueFingerprints(records);
    UniqueFingerprintsMembers(records);
    FingerprintCount(unique);
    SameFingerprints(records);
    SortElements(unique);
    forall x
      ensures x in unique <==> exists i :: FirstOfFingerprint(records, i) && records[i] == x
    {
      KeptExactly(records, x);
    }
    SortAscends(unique, symbol);
  }

  /** `t` is the latest trade time among the first records of each fingerprint. */
  ghost predicate Latest(records: seq<Row>, t: int) {
    && (exists i :: FirstOfFingerprint(records, i) && records[i].tradeTimeMs == t)
    && forall i :: FirstOfFingerprint(records, i) ==> records[i].tradeTimeMs <= t
  }

  ghost predicate Earliest(records: seq<Row>, t: int) {
    && (exists i :: FirstOfFingerprint(records, i) && records[i].tradeTimeMs == t)
    && forall i :: FirstOfFingerprint(records, i) ==> t <= records[i].tradeTimeMs
  }

  lemma EndsOfRows(records: seq<Row>, rows: seq<Row>)
    requires rows != [] && HoldsFirsts(rows, records) && InTime(rows)
    ensures Latest(records, rows[|rows| - 1].tradeTimeMs) && Earliest(records, rows[0].tradeTimeMs)
  {
    assert rows[|rows| - 1] in rows && rows[0] in rows;
    forall i | FirstOfFingerprint(records, i)
      ensures rows[0].tradeTimeMs <= records[i].tradeTimeMs <= rows[|rows| - 1].tradeTimeMs
    {
      assert records[i] in rows;
      var k :| 0 <= k < |rows| && rows[k] == records[i];
    }
  }

  /** Copies of one wire frame carry one trade time. */
  predicate CopiesAgree(records: seq<Row>) {
    forall i, j :: 0 <= i < j < |records| && records[i].fingerprint == records[j].fingerprint ==>
      records[i].tradeTimeMs == records[j].tradeTimeMs
  }

  lemma {:induction false} FirstCopy(records: seq<Row>, i: nat) returns (k: nat)
    requires i < |records|
    ensures k <= i && FirstOfFingerprint(records, k) && records[k].fingerprint == records[i].fingerprint
    decreases i
  {
    k := i;
    if !FirstOfFingerprint(records, i) {
      var j :| 0 <= j < i && records[j].fingerprint == records[i].fingerprint;
      k := FirstCopy(records, j);
    }
  }

  /** Then the latest of the first records is the latest of all. */
  lemma LatestOfAll(records: seq<Row>, t: int, i: nat)
    requires Latest(records, t) && CopiesAgree(records) && i < |records|
    ensures records[i].tradeTimeMs <= t
  {
    var k := FirstCopy(records, i);
  }

  // ---------------------------------------------------------------- the history of the directories

  /** The call gets as far as publishing its generation. */
  ghost predicate Merges(env: Env, st: Store, c: Call) {
    var r := Prepare(env, c.batch, c.diskOk);
    && r.Ok? && r.value.Some? && c.stages > 1
    && PrepareMakesRows(env, c.batch, c.diskOk)
    && PutRaw(env, st, r.value.value).Ok?
  }

  ghost predicate PrepareMakesRows(env: Env, batch: Batch, diskOk: bool)
    requires Prepare(env, batch, diskOk).Ok? && Prepare(env, batch, diskOk).value.Some?
  {
    PreparedIsNonEmpty(env, batch, diskOk);
    Prepare(env, batch, diskOk).value.value.rows != []
  }

  /** The batches merged into each year directory by a run of calls, in order. */
  ghost function Histories(env: Env, calls: seq<Call>): map<YearDir, seq<seq<Row>>> {
    if calls == [] then map[]
    else
      var before, c := Histories(env, calls[..|calls| - 1]), calls[|calls| - 1];
      if Merges(env, RunCalls(env, EMPTY, calls[..|calls| - 1]), c) then
        var p := Prepare(env, c.batch, c.diskOk).value.value;
        Extended(before, DirOf(p), p.rows)
      else before
  }

  ghost predicate Traced(env: Env, st: Store, h: map<YearDir, seq<seq<Row>>>) {
    FromHistories(env, st, h) && h.Keys == st.years.Keys
  }

  lemma UnmergedKeepsYears(env: Env, st: Store, c: Call)
    requires !Merges(env, st, c)
    ensures PersistCall(env, st, c).years == st.years
  {
  }

  /** The history once `rows` are merged into directory `d`. */
  ghost function Extended(h: map<YearDir, seq<seq<Row>>>, d: YearDir, rows: seq<Row>): map<YearDir, seq<seq<Row>>> {
    h[d := (if d in h then h[d] else []) + [rows]]
  }

  lemma PersistExtends(env: Env, st: Store, p: Prepared, stages: nat, h: map<YearDir, seq<seq<Row>>>)
    requires CollisionFree(env.generationTag) && Traced(env, st, h)
    requires p.rows != [] && OneSymbol(p.rows, p.symbol) && PutRaw(env, st, p).Ok? && stages > 1
    ensures Traced(env, Persist(env, st, p, stages), Extended(h, DirOf(p), p.rows))
  {
    PublishOnHistory(env, st, p, h);
    PersistYears(env, st, p, stages);
    YearsExtend(env, st, Persist(env, st, p, stages), h, DirOf(p), p.rows);
  }

  lemma YearsExtend(env: Env, a: Store, b: Store, h: map<YearDir, seq<seq<Row>>>, d: YearDir, rows: seq<Row>)
    requires Traced(env, a, h) && OneSymbol(Flat(HistoryOf(h, a, d)) + rows, d.0)
    requires b.years == a.years[d := Generations(env.generationTag, HistoryOf(h, a, d) + [rows])]
    ensures Traced(env, b, Extended(h, d, rows))
  {
    ExtendHistory(env, a, b, h, d, HistoryOf(h, a, d), rows);
  }

  lemma MergedExtends(env: Env, st: Store, c: Call, h: map<YearDir, seq<seq<Row>>>)
    requires CollisionFree(env.generationTag) && Traced(env, st, h) && Merges(env, st, c)
    ensures var p := Prepare(env, c.batch, c.diskOk).value.value;
            Traced(env, PersistCall(env, st, c), Extended(h, DirOf(p), p.rows))
  {
    PreparedIsNonEmpty(env, c.batch, c.diskOk);
    PersistExtends(env, st, Prepare(env, c.batch, c.diskOk).value.value, c.stages, h);
  }

  lemma {:induction false} RunsAreTraced(env: Env, calls: seq<Call>)
    requires CollisionFree(env.generationTag)
    ensures Traced(env, RunCalls(env, EMPTY, calls), Histories(env, calls))
  {
    if calls != [] {
      var before, c := calls[..|calls| - 1], calls[|calls| - 1];
      RunsAreTraced(env, before);
      if Merges(env, RunCalls(env, EMPTY, before), c) {
        MergedExtends(env, RunCalls(env, EMPTY, before), c, Histories(env, before));
      } else {
        UnmergedKeepsYears(env, RunCalls(env, EMPTY, before), c);
      }
    }
  }

  /** The distinct keys ever merged into a directory. */
  ghost function KeysMerged(env: Env, calls: seq<Call>, d: YearDir): set<Key> {
    if d in Histories(env, calls) then set r | r in Flat(Histories(env, calls)[d]) :: KeyOf(r) else {}
  }

  /** A key is the symbol, the trade time and the fingerprint. */
  lemma KeysExactly(a: Row, b: Row)
    ensures KeyOf(a) == KeyOf(b)
            <==> a.symbol == b.symbol && a.tradeTimeMs == b.tradeTimeMs && a.fingerprint == b.fingerprint
  {
  }

  // ---------------------------------------------------------------- what a completed call records

  /** The call completes on `st`: all four writes happen and none raises. */
  ghost predicate Completes(env: Env, st: Store, c: Call) {
    Merges(env, st, c) && c.stages >= 4
  }

  /** A completed call is one that answers with row counts. */
  lemma CompletesExactly(env: Env, calls: seq<Call>, c: Call, out: Outcome)
    requires CollisionFree(env.generationTag) && Answers(env, RunCalls(env, EMPTY, calls), c, out)
    ensures out.Persisted? <==> Completes(env, RunCalls(env, EMPTY, calls), c)
  {
    var st := RunCalls(env, EMPTY, calls);
    var r := Prepare(env, c.batch, c.diskOk);
    if r.Ok? && r.value.Some? {
      PreparedIsNonEmpty(env, c.batch, c.diskOk);
      RunsAreTraced(env, calls);
      PublishOnHistory(env, st, r.value.value, Histories(env, calls));
    }
  }

  /** The prepared batch in terms of its messages. */
  lemma PreparedBatch(env: Env, batch: Batch, diskOk: bool)
    requires Prepare(env, batch, diskOk).Ok? && Prepare(env, batch, diskOk).value.Some?
    ensures AllParse(batch) && batch.messages != []
    ensures var p := Prepare(env, batch, diskOk).value.value;
            var records := Records(batch.messages);
            && p.symbol == batch.symbol && p.lines == Texts(batch.messages)
            && p.day == records[0].tradeTimeMs / 86_400_000 && p.year == env.yearOf(records[0].tradeTimeMs / 86_400_000)
            && |p.rows| == |Fingerprints(records)| && p.rows != []
            && Latest(records, p.rows[|p.rows| - 1].tradeTimeMs) && Earliest(records, p.rows[0].tradeTimeMs)
  {
    RefusedExactly(env, batch, diskOk);
    PreparedIsNonEmpty(env, batch, diskOk);
    RowsOfRecords(Records(batch.messages), batch.symbol);
  }

  lemma RowsOfRecords(records: seq<Row>, symbol: string)
    requires forall i :: 0 <= i < |records| ==> records[i].symbol == symbol
    ensures var rows := Sort(UniqueFingerprints(records));
            |rows| == |Fingerprints(records)|
            && (rows != [] ==> Latest(records, rows[|rows| - 1].tradeTimeMs) && Earliest(records, rows[0].tradeTimeMs))
  {
    SortedRows(records, symbol);
    if Sort(UniqueFingerprints(records)) != [] {
      EndsOfRows(records, Sort(UniqueFingerprints(records)));
    }
  }

  /** The directory a batch goes to: its symbol and the calendar year of its day. */
  function DirectoryOf(env: Env, batch: Batch): YearDir
    requires AllParse(batch) && batch.messages != []
  {
    (batch.symbol, env.yearOf(batch.messages[0].record.value.tradeTimeMs / 86_400_000))
  }

  /** What publishing the batch yields: a named file whose size is the number of keys merged so far. */
  lemma PublishedSize(env: Env, calls: seq<Call>, c: Call)
    requires CollisionFree(env.generationTag) && Merges(env, RunCalls(env, EMPTY, calls), c)
    ensures var p := Prepare(env, c.batch, c.diskOk).value.value;
            var g := PublishGeneration(env, RunCalls(env, EMPTY, calls), p);
            && g.Ok? && g.value.name in g.value.files && |g.value.files[g.value.name]| == g.value.rows
            && g.value.rows == |KeysMerged(env, calls + [c], DirOf(p))|
  {
    var st, h := RunCalls(env, EMPTY, calls), Histories(env, calls);
    PreparedIsNonEmpty(env, c.batch, c.diskOk);
    var p := Prepare(env, c.batch, c.diskOk).value.value;
    RunsAreTraced(env, calls);
    PublishOnHistory(env, st, p, h);
    var past := HistoryOf(h, st, DirOf(p));
    assert (calls + [c])[..|calls|] == calls;
    assert Histories(env, calls + [c])[DirOf(p)] == past + [p.rows];
    HeadContents(Flat(past) + p.rows, p.symbol);
    DistinctKeyCount(Flat(past + [p.rows]));
    GenerationsAgree(env.generationTag, past + [p.rows], p.symbol);
  }

  lemma PersistsAll(env: Env, st: Store, c: Call)
    requires Completes(env, st, c)
    requires PublishGeneration(env, st, Prepare(env, c.batch, c.diskOk).value.value).Ok?
    ensures var p := Prepare(env, c.batch, c.diskOk).value.value;
            var g := PublishGeneration(env, st, p).value;
            g.name in g.files ==>
              && p.rows != []
              && var row := ManifestRowOf(env, p, g);
                 var t := PersistCall(env, st, c);
                 && t.manifest == AppendOnce(st.manifest, row)
                 && t.checkpoints == st.checkpoints[p.symbol := CheckpointOf(p, row)]
                 && t.years == st.years[DirOf(p) := g.files]
                 && RawNameOf(env, p) in t.raw && t.raw[RawNameOf(env, p)] == p.lines
  {
    PreparedIsNonEmpty(env, c.batch, c.diskOk);
    var p := Prepare(env, c.batch, c.diskOk).value.value;
    assert PutRaw(env, st, p).value.years == st.years;
  }

  /**
   Main result: after any run with crashes, a completed call leaves a checkpoint of its symbol whose event time is
   the latest of the batch and whose total is the number of distinct keys ever merged into its year directory, and
   leaves the checkpoints of other symbols alone.
   */
  lemma CheckpointExactly(env: Env, calls: seq<Call>, c: Call)
    requires CollisionFree(env.generationTag) && Completes(env, RunCalls(env, EMPTY, calls), c)
    ensures AllParse(c.batch) && c.batch.messages != []
    ensures var st := RunCalls(env, EMPTY, calls);
            var t := RunCalls(env, EMPTY, calls + [c]);
            && c.batch.symbol in t.checkpoints
            && Latest(Records(c.batch.messages), t.checkpoints[c.batch.symbol].lastEventTime)
            && t.checkpoints[c.batch.symbol].totalRecords == |KeysMerged(env, calls + [c], DirectoryOf(env, c.batch))|
            && forall s :: s != c.batch.symbol ==>
                 (s in t.checkpoints <==> s in st.checkpoints)
                 && (s in t.checkpoints ==> t.checkpoints[s] == st.checkpoints[s])
  {
    assert (calls + [c])[..|calls|] == calls;
    PreparedBatch(env, c.batch, c.diskOk);
    PublishedSize(env, calls, c);
    PersistsAll(env, RunCalls(env, EMPTY, calls), c);
    var p := Prepare(env, c.batch, c.diskOk).value.value;
    var g := PublishGeneration(env, RunCalls(env, EMPTY, calls), p).value;
    CheckpointOfBatch(env, p, g, c);
  }

  lemma CheckpointOfBatch(env: Env, p: Prepared, g: Published, c: Call)
    requires Prepare(env, c.batch, c.diskOk) == Ok(Some(p)) && p.rows != [] && g.name in g.files
    ensures AllParse(c.batch) && c.batch.messages != [] && p.symbol == c.batch.symbol
    ensures DirOf(p) == DirectoryOf(env, c.batch)
    ensures Latest(Records(c.batch.messages), CheckpointOf(p, ManifestRowOf(env, p, g)).lastEventTime)
    ensures CheckpointOf(p, ManifestRowOf(env, p, g)).totalRecords == g.rows
  {
    PreparedBatch(env, c.batch, c.diskOk);
  }

  /** The columns of a manifest row, in terms of the batch and the files it names. */
  ghost predicate Describes(env: Env, t: Store, row: ManifestRow, batch: Batch)
    requires AllParse(batch) && batch.messages != []
  {
    var records := Records(batch.messages);
    && row.dir == DirectoryOf(env, batch) && row.dir in t.years && row.parquet in t.years[row.dir]
    && row.parquetSha == RowsSha(t.years[row.dir][row.parquet])
    && row.totalRows == |t.years[row.dir][row.parquet]| && row.rowCount == |Fingerprints(records)|
    && row.rawSha == TextSha(Texts(batch.messages))
    && row.raw in t.raw && t.raw[row.raw] == Texts(batch.messages)
    && row.raw.symbol == batch.symbol && row.raw.day == records[0].tradeTimeMs / 86_400_000
    && (exists e :: Earliest(records, e) && row.raw.startSecond == e / 1000)
    && (exists l :: Latest(records, l) && row.raw.endSecond == l / 1000)
  }

  /**
   Main result: a completed call appends one manifest row that describes its batch, unless a row with the same
   digests is already there, and its checkpoint names the digests of that row.
   */
  lemma ManifestExactly(env: Env, calls: seq<Call>, c: Call) returns (row: ManifestRow)
    requires CollisionFree(env.generationTag) && Completes(env, RunCalls(env, EMPTY, calls), c)
    ensures AllParse(c.batch) && c.batch.messages != []
    ensures var st := RunCalls(env, EMPTY, calls);
            var t := RunCalls(env, EMPTY, calls + [c]);
            && Describes(env, t, row, c.batch)
            && t.manifest == (if exists i :: 0 <= i < |st.manifest| && st.manifest[i].rawSha == row.rawSha
                                              && st.manifest[i].parquetSha == row.parquetSha
                              then st.manifest else st.manifest + [row])
            && c.batch.symbol in t.checkpoints && t.checkpoints[c.batch.symbol].rawSha == row.rawSha
            && t.checkpoints[c.batch.symbol].parquetSha == row.parquetSha
  {
    assert (calls + [c])[..|calls|] == calls;
    var st, p := RunCalls(env, EMPTY, calls), Prepare(env, c.batch, c.diskOk).value.value;
    PreparedBatch(env, c.batch, c.diskOk);
    PublishedSize(env, calls, c);
    PersistsAll(env, st, c);
    row := ManifestRowOf(env, p, PublishGeneration(env, st, p).value);
    RowDescribes(env, PersistCall(env, st, c), p, PublishGeneration(env, st, p).value, c);
    AppendOnceExactly(st.manifest, row);
  }

  lemma RowDescribes(env: Env, t: Store, p: Prepared, g: Published, c: Call)
    requires Prepare(env, c.batch, c.diskOk) == Ok(Some(p)) && p.rows != [] && g.name in g.files
    requires AllParse(c.batch) && c.batch.messages != []
    requires |g.files[g.name]| == g.rows && DirOf(p) in t.years && t.years[DirOf(p)] == g.files
    requires RawNameOf(env, p) in t.raw && t.raw[RawNameOf(env, p)] == p.lines
    ensures Describes(env, t, ManifestRowOf(env, p, g), c.batch)
  {
    PreparedBatch(env, c.batch, c.diskOk);
    var records, row := Records(c.batch.messages), ManifestRowOf(env, p, g);
    assert Earliest(records, p.rows[0].tradeTimeMs) && row.raw.startSecond == p.rows[0].tradeTimeMs / 1000;
    assert Latest(records, p.rows[|p.rows| - 1].tradeTimeMs)
        && row.raw.endSecond == p.rows[|p.rows| - 1].tradeTimeMs / 1000;
  }

  lemma AppendOnceExactly(manifest: seq<ManifestRow>, row: ManifestRow)
    ensures AppendOnce(manifest, row)
            == (if exists i :: 0 <= i < |manifest| && manifest[i].rawSha == row.rawSha
                               && manifest[i].parquetSha == row.parquetSha
                then manifest else manifest + [row])
  {
    if i :| 0 <= i < |manifest| && manifest[i].rawSha == row.rawSha && manifest[i].parquetSha == row.parquetSha {
      assert SameManifestKey(manifest[i], row);
    }
    if i :| 0 <= i < |manifest| && SameManifestKey(manifest[i], row) {
      assert manifest[i].rawSha == row.rawSha;
    }
  }

  /**
   Main result: a completed call answers with the number of distinct keys merged into its directory so far, and with
   how many of them are new.
   */
  lemma AnswerExactly(env: Env, calls: seq<Call>, c: Call, out: Outcome)
    requires CollisionFree(env.generationTag) && Answers(env, RunCalls(env, EMPTY, calls), c, out) && out.Persisted?
    ensures AllParse(c.batch) && c.batch.messages != []
    ensures var d := DirectoryOf(env, c.batch);
            && out.rows == |KeysMerged(env, calls + [c], d)|
            && out.newRows == |KeysMerged(env, calls + [c], d)| - |KeysMerged(env, calls, d)|
  {
    CompletesExactly(env, calls, c, out);
    PreparedBatch(env, c.batch, c.diskOk);
    PublishedSize(env, calls, c);
    var previousRows := AnsweredRows(env, RunCalls(env, EMPTY, calls), c, out);
    LargestFile(env, calls, DirectoryOf(env, c.batch), previousRows);
    KeysOnlyGrow(env, calls, c, DirectoryOf(env, c.batch));
  }

  /** The counts of an answer, against the largest file there was. */
  lemma AnsweredRows(env: Env, st: Store, c: Call, out: Outcome) returns (previousRows: nat)
    requires Answers(env, st, c, out) && out.Persisted? && Merges(env, st, c)
    ensures var p := Prepare(env, c.batch, c.diskOk).value.value;
            && IsMaxRows(DirFiles(st.years, DirOf(p)), previousRows)
            && PublishGeneration(env, st, p).Ok? && out.rows == PublishGeneration(env, st, p).value.rows
            && out.newRows == NewRows(out.rows, previousRows)
  {
    PreparedIsNonEmpty(env, c.batch, c.diskOk);
    var p := Prepare(env, c.batch, c.diskOk).value.value;
    assert AnswersPublished(env, st, p, c.stages, out);
    previousRows :| IsMaxRows(DirFiles(st.years, DirOf(p)), previousRows)
                    && out == Persisted(PublishGeneration(env, st, p).value.rows,
                                        NewRows(PublishGeneration(env, st, p).value.rows, previousRows));
  }

  lemma LargestFile(env: Env, calls: seq<Call>, d: YearDir, previousRows: nat)
    requires CollisionFree(env.generationTag)
    requires IsMaxRows(DirFiles(RunCalls(env, EMPTY, calls).years, d), previousRows)
    ensures previousRows == |KeysMerged(env, calls, d)|
  {
    RunsAreTraced(env, calls);
    var h := Histories(env, calls);
    if d in h {
      MaxRowsIsHeadSize(env.generationTag, h[d], d.0, previousRows);
      DistinctKeyCount(Flat(h[d]));
    }
  }

  lemma KeysOnlyGrow(env: Env, calls: seq<Call>, c: Call, d: YearDir)
    ensures KeysMerged(env, calls, d) <= KeysMerged(env, calls + [c], d)
    ensures |KeysMerged(env, calls, d)| <= |KeysMerged(env, calls + [c], d)|
  {
    assert (calls + [c])[..|calls|] == calls;
    SubsetCardinality(KeysMerged(env, calls, d), KeysMerged(env, calls + [c], d));
  }

  /** A generation is sorted by trade time and, within one time, by fingerprint, without repetition. */
  lemma GenerationOrder(rows: seq<Row>, symbol: string, i: nat, j: nat)
    requires OneSymbol(rows, symbol) && i < j < |Head(rows)|
    ensures Head(rows)[i].tradeTimeMs <= Head(rows)[j].tradeTimeMs
    ensures Head(rows)[i].tradeTimeMs == Head(rows)[j].tradeTimeMs ==>
              Head(rows)[i].fingerprint < Head(rows)[j].fingerprint
  {
    HeadContents(rows, symbol);
  }
}
