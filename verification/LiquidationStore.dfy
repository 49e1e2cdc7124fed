/**
 persist_binance_liquidation_batch in binance/liquidations.py: four durable writes in a fixed order -- raw
 object, cumulative generation, manifest line, checkpoint -- with a crash possible before any of them.  One
 process at a time writes; fsync followed by rename, and appending one line, are atomic.
 */
module LiquidationStore {
  import opened Common
  import opened LiquidationMerge
  import opened LiquidationGenerations

  /** Truncated digests in file names, and the calendar year of a day number.  All results hold for any of them
      unless they ask for collision-free generation tags. */
  datatype Env = Env(rawTag: seq<string> -> nat, generationTag: Tag, yearOf: int -> int)

  /** A frame as received; `record` is None when parsing or validation raises. */
  datatype Message = Message(text: string, record: Option<Row>)

  datatype Batch = Batch(symbol: string, messages: seq<Message>)

  datatype PersistError = UnsupportedSymbol | LowDisk | InvalidMessage | SpansDates | RawConflict | MergeFailed

  datatype Prepared = Prepared(symbol: string, lines: seq<string>, rows: seq<Row>, day: int, year: int)

  const DAY_MS := 86_400_000

  predicate Parses(symbol: string, m: Message) {
    m.record.Some? && m.record.value.symbol == symbol
  }

  function Records(messages: seq<Message>): seq<Row>
    requires forall m :: m in messages ==> m.record.Some?
  {
    seq(|messages|, i requires 0 <= i < |messages| => messages[i].record.value)
  }

  function Texts(messages: seq<Message>): seq<string> {
    seq(|messages|, i requires 0 <= i < |messages| => messages[i].text)
  }

  /** `unique_records.setdefault(record.dedup_fingerprint, record)`. */
  function UniqueFingerprints(rows: seq<Row>): seq<Row> {
    if rows == [] then []
    else
      var u, r := UniqueFingerprints(rows[..|rows| - 1]), rows[|rows| - 1];
      if HasFingerprint(u, r.fingerprint) then u else u + [r]
  }

  predicate HasFingerprint(rows: seq<Row>, f: nat) {
    exists i :: 0 <= i < |rows| && rows[i].fingerprint == f
  }

  lemma {:induction false} UniqueFingerprintsMembers(rows: seq<Row>)
    ensures forall f: nat :: HasFingerprint(UniqueFingerprints(rows), f) <==> HasFingerprint(rows, f)
    ensures forall i, j :: 0 <= i < j < |UniqueFingerprints(rows)| ==>
              UniqueFingerprints(rows)[i].fingerprint != UniqueFingerprints(rows)[j].fingerprint
  {
    if rows != [] {
      UniqueFingerprintsMembers(rows[..|rows| - 1]);
      UniqueStep(rows[..|rows| - 1], rows[|rows| - 1]);
      assert rows == rows[..|rows| - 1] + [rows[|rows| - 1]];
    }
  }

  lemma FingerprintAppend(rows: seq<Row>, r: Row, f: nat)
    ensures HasFingerprint(rows + [r], f) <==> HasFingerprint(rows, f) || r.fingerprint == f
  {
    assert (rows + [r])[|rows|] == r;
    if HasFingerprint(rows, f) {
      var i :| 0 <= i < |rows| && rows[i].fingerprint == f;
      assert (rows + [r])[i] == rows[i];
    }
  }

  lemma UniqueStep(rows: seq<Row>, r: Row)
    ensures UniqueFingerprints(rows + [r])
            == if HasFingerprint(UniqueFingerprints(rows), r.fingerprint) then UniqueFingerprints(rows)
               else UniqueFingerprints(rows) + [r]
    ensures forall f: nat :: HasFingerprint(rows + [r], f) <==> HasFingerprint(rows, f) || r.fingerprint == f
    ensures forall f: nat :: HasFingerprint(UniqueFingerprints(rows) + [r], f)
                        <==> HasFingerprint(UniqueFingerprints(rows), f) || r.fingerprint == f
  {
    assert (rows + [r])[..|rows|] == rows;
    forall f: nat
      ensures HasFingerprint(rows + [r], f) <==> HasFingerprint(rows, f) || r.fingerprint == f
      ensures HasFingerprint(UniqueFingerprints(rows) + [r], f)
              <==> HasFingerprint(UniqueFingerprints(rows), f) || r.fingerprint == f
    {
      FingerprintAppend(rows, r, f);
      FingerprintAppend(UniqueFingerprints(rows), r, f);
    }
  }

  /** A record is kept exactly when it is the first of its fingerprint: some least index carries it. */
  lemma {:induction false} UniqueIsFirst(rows: seq<Row>, x: Row)
    ensures x in UniqueFingerprints(rows)
            <==> exists i :: 0 <= i < |rows| && rows[i] == x && !HasFingerprint(rows[..i], x.fingerprint)
  {
    if rows != [] {
      var prefix, r := rows[..|rows| - 1], rows[|rows| - 1];
      assert rows == prefix + [r];
      UniqueIsFirst(prefix, x);
      UniqueStep(prefix, r);
      UniqueFingerprintsMembers(prefix);
      forall i | 0 <= i < |prefix|
        ensures prefix[..i] == rows[..i] && prefix[i] == rows[i]
      {
      }
      assert rows[..|prefix|] == prefix;
    }
  }

  /** Everything persist does before its first write; `Ok(None)` is the empty batch, which writes nothing. */
  function Prepare(env: Env, batch: Batch, diskOk: bool): Result<Option<Prepared>, PersistError> {
    if batch.symbol != "BTCUSDT" && batch.symbol != "ETHUSDT" then Err(UnsupportedSymbol)
    else if batch.messages == [] then Ok(None)
    else if !diskOk then Err(LowDisk)
    else if exists i :: 0 <= i < |batch.messages| && !Parses(batch.symbol, batch.messages[i]) then Err(InvalidMessage)
    else
      var records := Records(batch.messages);
      var day := records[0].tradeTimeMs / DAY_MS;
      if exists i :: 0 <= i < |records| && records[i].tradeTimeMs / DAY_MS != day then Err(SpansDates)
      else Ok(Some(Prepared(batch.symbol, Texts(batch.messages), Sort(UniqueFingerprints(records)), day,
          env.yearOf(day))))
  }

  /** SHA-256 as a free constructor: equal digests mean equal content. */
  datatype Sha = TextSha(lines: seq<string>) | RowsSha(rows: seq<Row>)

  datatype RawName = RawName(symbol: string, day: int, startSecond: int, endSecond: int, tag: nat)

  type YearDir = (string, int)

  datatype ManifestRow = ManifestRow(raw: RawName, rawSha: Sha, dir: YearDir, parquet: nat, parquetSha: Sha,
                                     rowCount: nat, totalRows: nat)

  datatype Checkpoint = Checkpoint(rawSha: Sha, parquetSha: Sha, lastEventTime: int, totalRecords: nat)

  datatype Store = Store(raw: map<RawName, seq<string>>, years: map<YearDir, Files>,
                         manifest: seq<ManifestRow>, checkpoints: map<string, Checkpoint>)

  function DirFiles(years: map<YearDir, Files>, d: YearDir): Files {
    if d in years then years[d] else map[]
  }

  function RawNameOf(env: Env, p: Prepared): RawName
    requires p.rows != []
  {
    RawName(p.symbol, p.day, p.rows[0].tradeTimeMs / 1000, p.rows[|p.rows| - 1].tradeTimeMs / 1000, env.rawTag(p.lines))
  }

  function PutRaw(env: Env, st: Store, p: Prepared): Result<Store, PersistError>
    requires p.rows != []
  {
    var name := RawNameOf(env, p);
    if name !in st.raw then Ok(st.(raw := st.raw[name := p.lines]))
    else if st.raw[name] != p.lines then Err(RawConflict)
    else Ok(st)
  }

  function DirOf(p: Prepared): YearDir {
    (p.symbol, p.year)
  }

  ghost function PublishGeneration(env: Env, st: Store, p: Prepared): Result<Published, MergeError> {
    Merge(env.generationTag, DirFiles(st.years, DirOf(p)), p.rows)
  }

  function ManifestRowOf(env: Env, p: Prepared, g: Published): ManifestRow
    requires p.rows != [] && g.name in g.files
  {
    ManifestRow(RawNameOf(env, p), TextSha(p.lines), DirOf(p), g.name, RowsSha(g.files[g.name]), |p.rows|, g.rows)
  }

  predicate SameManifestKey(a: ManifestRow, b: ManifestRow) {
    a.rawSha == b.rawSha && a.parquetSha == b.parquetSha
  }

  function AppendOnce(manifest: seq<ManifestRow>, row: ManifestRow): seq<ManifestRow> {
    if exists i :: 0 <= i < |manifest| && SameManifestKey(manifest[i], row) then manifest else manifest + [row]
  }

  function CheckpointOf(p: Prepared, row: ManifestRow): Checkpoint
    requires p.rows != []
  {
    Checkpoint(row.rawSha, row.parquetSha, p.rows[|p.rows| - 1].tradeTimeMs, row.totalRows)
  }

  /** The manifest and checkpoint writes, once generation `g` is in place. */
  function PersistRecorded(env: Env, s2: Store, p: Prepared, g: Published, stages: nat): Store
    requires p.rows != [] && g.name in g.files
  {
    var row := ManifestRowOf(env, p, g);
    if stages <= 2 then s2
    else if stages == 3 then s2.(manifest := AppendOnce(s2.manifest, row))
    else s2.(manifest := AppendOnce(s2.manifest, row), checkpoints := s2.checkpoints[p.symbol := CheckpointOf(p, row)])
  }

  ghost function PersistPublished(env: Env, s1: Store, p: Prepared, stages: nat): Store
    requires p.rows != []
  {
    var published := PublishGeneration(env, s1, p);
    if stages <= 1 || published.Err? then s1
    else PersistRecorded(env, s1.(years := s1.years[DirOf(p) := published.value.files]), p, published.value, stages)
  }

  /** The store after the first `stages` of the four writes; a raised error stops earlier. */
  ghost function Persist(env: Env, st: Store, p: Prepared, stages: nat): Store
    requires p.rows != []
  {
    var putRaw := PutRaw(env, st, p);
    if stages == 0 || putRaw.Err? then st else PersistPublished(env, putRaw.value, p, stages)
  }

  /** One call of persist: the batch, whether the disk check passes, and how many writes happen before the crash. */
  datatype Call = Call(batch: Batch, diskOk: bool, stages: nat)

  lemma {:induction false} UniqueFingerprintsNonEmpty(rows: seq<Row>)
    ensures rows != [] ==> UniqueFingerprints(rows) != []
    ensures forall r :: r in UniqueFingerprints(rows) ==> r in rows
  {
    if rows != [] {
      UniqueFingerprintsNonEmpty(rows[..|rows| - 1]);
      assert rows == rows[..|rows| - 1] + [rows[|rows| - 1]];
    }
  }

  lemma PreparedIsNonEmpty(env: Env, batch: Batch, diskOk: bool)
    requires Prepare(env, batch, diskOk).Ok? && Prepare(env, batch, diskOk).value.Some?
    ensures var p := Prepare(env, batch, diskOk).value.value;
            p.rows != [] && OneSymbol(p.rows, p.symbol) && p.symbol == batch.symbol
  {
    var records := Records(batch.messages);
    UniqueFingerprintsNonEmpty(records);
    SortElements(UniqueFingerprints(records));
    forall r | r in records
      ensures r.symbol == batch.symbol
    {
      var i :| 0 <= i < |records| && records[i] == r;
      assert Parses(batch.symbol, batch.messages[i]);
    }
  }

  ghost function PersistCall(env: Env, st: Store, c: Call): Store {
    var p := Prepare(env, c.batch, c.diskOk);
    if p.Err? || p.value.None? then st
    else
      PreparedIsNonEmpty(env, c.batch, c.diskOk);
      Persist(env, st, p.value.value, c.stages)
  }

  ghost function RunCalls(env: Env, st: Store, calls: seq<Call>): Store {
    if calls == [] then st else PersistCall(env, RunCalls(env, st, calls[..|calls| - 1]), calls[|calls| - 1])
  }

  const EMPTY := Store(map[], map[], [], map[])

  // ---------------------------------------------------------------- crash safety

  /** The objects a manifest row names exist and hash to what the row records. */
  predicate RowResolves(st: Store, row: ManifestRow) {
    && row.raw in st.raw && row.rawSha == TextSha(st.raw[row.raw])
    && row.dir in st.years && row.parquet in st.years[row.dir]
    && row.parquetSha == RowsSha(st.years[row.dir][row.parquet])
  }

  predicate CheckpointRecorded(st: Store, c: Checkpoint) {
    exists i :: 0 <= i < |st.manifest| && st.manifest[i].rawSha == c.rawSha && st.manifest[i].parquetSha == c.parquetSha
  }

  predicate Durable(st: Store) {
    && (forall i :: 0 <= i < |st.manifest| ==> RowResolves(st, st.manifest[i]))
    && (forall i, j :: 0 <= i < j < |st.manifest| ==> !SameManifestKey(st.manifest[i], st.manifest[j]))
    && (forall s :: s in st.checkpoints ==> CheckpointRecorded(st, st.checkpoints[s]))
  }

  /** Objects are immutable and the manifest is append-only. */
  ghost predicate Extends(a: Store, b: Store) {
    && (forall n :: n in a.raw ==> n in b.raw && b.raw[n] == a.raw[n])
    && (forall d :: d in a.years ==> d in b.years)
    && (forall d, n :: d in a.years && n in a.years[d] ==> n in b.years[d] && b.years[d][n] == a.years[d][n])
    && a.manifest <= b.manifest
  }

  lemma ExtensionKeepsRows(a: Store, b: Store, row: ManifestRow)
    requires Extends(a, b) && RowResolves(a, row)
    ensures RowResolves(b, row)
  {
  }

  lemma AppendOnceKeepsDurable(st: Store, row: ManifestRow)
    requires Durable(st) && RowResolves(st, row)
    ensures Durable(st.(manifest := AppendOnce(st.manifest, row)))
    ensures exists i :: 0 <= i < |AppendOnce(st.manifest, row)| && SameManifestKey(AppendOnce(st.manifest, row)[i], row)
  {
    var t := st.(manifest := AppendOnce(st.manifest, row));
    forall s | s in st.checkpoints
      ensures CheckpointRecorded(t, t.checkpoints[s])
    {
      var c := st.checkpoints[s];
      var i :| 0 <= i < |st.manifest| && st.manifest[i].rawSha == c.rawSha && st.manifest[i].parquetSha == c.parquetSha;
      assert t.manifest[i] == st.manifest[i];
    }
    if t.manifest != st.manifest {
      assert SameManifestKey(t.manifest[|st.manifest|], row);
    }
  }

  lemma GrowthKeepsDurable(a: Store, b: Store)
    requires Durable(a) && Extends(a, b) && b.manifest == a.manifest && b.checkpoints == a.checkpoints
    ensures Durable(b)
  {
    forall i | 0 <= i < |b.manifest|
      ensures RowResolves(b, b.manifest[i])
    {
      ExtensionKeepsRows(a, b, a.manifest[i]);
    }
  }

  lemma RecordingKeepsDurable(env: Env, s2: Store, p: Prepared, g: Published, stages: nat)
    requires p.rows != [] && g.name in g.files && Durable(s2) && RowResolves(s2, ManifestRowOf(env, p, g))
    ensures Durable(PersistRecorded(env, s2, p, g, stages)) && Extends(s2, PersistRecorded(env, s2, p, g, stages))
  {
    var row := ManifestRowOf(env, p, g);
    AppendOnceKeepsDurable(s2, row);
    var s3 := s2.(manifest := AppendOnce(s2.manifest, row));
    if stages > 3 {
      var t := PersistRecorded(env, s2, p, g, stages);
      assert t.manifest == s3.manifest;
      forall s | s in t.checkpoints
        ensures CheckpointRecorded(t, t.checkpoints[s])
      {
        if s != p.symbol {
          assert CheckpointRecorded(s3, s3.checkpoints[s]);
        } else {
          var i :| 0 <= i < |t.manifest| && SameManifestKey(t.manifest[i], row);
          assert t.manifest[i].rawSha == t.checkpoints[s].rawSha;
        }
      }
    }
  }

  lemma PublishingExtends(env: Env, s1: Store, p: Prepared)
    requires PublishGeneration(env, s1, p).Ok?
    ensures var g := PublishGeneration(env, s1, p).value;
            g.name in g.files && Extends(s1, s1.(years := s1.years[DirOf(p) := g.files]))
  {
  }

  lemma PutRawKeepsDurable(env: Env, st: Store, p: Prepared)
    requires p.rows != [] && Durable(st) && PutRaw(env, st, p).Ok?
    ensures Durable(PutRaw(env, st, p).value) && Extends(st, PutRaw(env, st, p).value)
  {
    GrowthKeepsDurable(st, PutRaw(env, st, p).value);
  }

  lemma PublishedKeepsDurable(env: Env, s1: Store, p: Prepared, stages: nat)
    requires p.rows != [] && Durable(s1) && RawNameOf(env, p) in s1.raw && s1.raw[RawNameOf(env, p)] == p.lines
    ensures Durable(PersistPublished(env, s1, p, stages)) && Extends(s1, PersistPublished(env, s1, p, stages))
  {
    if stages > 1 && PublishGeneration(env, s1, p).Ok? {
      var g := PublishGeneration(env, s1, p).value;
      var s2 := s1.(years := s1.years[DirOf(p) := g.files]);
      PublishingExtends(env, s1, p);
      GrowthKeepsDurable(s1, s2);
      RecordingKeepsDurable(env, s2, p, g, stages);
      ExtendsTransitive(s1, s2, PersistRecorded(env, s2, p, g, stages));
    }
  }

  /** A persist call, crashed anywhere, keeps the store durable and rewrites nothing. */
  lemma PersistKeepsDurable(env: Env, st: Store, p: Prepared, stages: nat)
    requires p.rows != [] && Durable(st)
    ensures Durable(Persist(env, st, p, stages)) && Extends(st, Persist(env, st, p, stages))
  {
    if stages > 0 && PutRaw(env, st, p).Ok? {
      PutRawKeepsDurable(env, st, p);
      PublishedKeepsDurable(env, PutRaw(env, st, p).value, p, stages);
      ExtendsTransitive(st, PutRaw(env, st, p).value, Persist(env, st, p, stages));
    }
  }

  lemma ExtendsTransitive(a: Store, b: Store, c: Store)
    requires Extends(a, b) && Extends(b, c)
    ensures Extends(a, c)
  {
  }

  /** Main result: after any calls, each crashed before any write, every manifest row resolves to objects with the
      recorded digests, no two rows share a key, and every checkpoint is backed by a manifest row. */
  lemma {:induction false} RunsAreDurable(env: Env, calls: seq<Call>)
    ensures Durable(RunCalls(env, EMPTY, calls))
  {
    if calls != [] {
      var c := calls[|calls| - 1];
      RunsAreDurable(env, calls[..|calls| - 1]);
      var p := Prepare(env, c.batch, c.diskOk);
      if p.Ok? && p.value.Some? {
        PreparedIsNonEmpty(env, c.batch, c.diskOk);
        PersistKeepsDurable(env, RunCalls(env, EMPTY, calls[..|calls| - 1]), p.value.value, c.stages);
      }
    }
  }

  // ---------------------------------------------------------------- retry

  /** Every year directory is the directory of some history of merges. */
  ghost predicate FromHistories(env: Env, st: Store, h: map<YearDir, seq<seq<Row>>>) {
    forall d :: d in st.years ==>
      d in h && st.years[d] == Generations(env.generationTag, h[d]) && OneSymbol(Flat(h[d]), d.0)
  }

  ghost function HistoryOf(h: map<YearDir, seq<seq<Row>>>, st: Store, d: YearDir): seq<seq<Row>> {
    if d in st.years && d in h then h[d] else []
  }

  lemma PublishOnHistory(env: Env, st: Store, p: Prepared, h: map<YearDir, seq<seq<Row>>>)
    requires CollisionFree(env.generationTag) && FromHistories(env, st, h)
    requires p.rows != [] && OneSymbol(p.rows, p.symbol)
    ensures var past := HistoryOf(h, st, DirOf(p));
            var head := Head(Flat(past) + p.rows);
            && OneSymbol(Flat(past) + p.rows, p.symbol)
            && DirFiles(st.years, DirOf(p)) == Generations(env.generationTag, past)
            && PublishGeneration(env, st, p) == Ok(Published(Generations(env.generationTag, past + [p.rows]),
                                                              env.generationTag(Keys(head)), |head|))
  {
    var past := HistoryOf(h, st, DirOf(p));
    MergeExtendsHistory(env.generationTag, past, p.rows, p.symbol);
  }

  /** Publishing the same batch again changes nothing and reports the same generation. */
  lemma PublishIsIdempotent(env: Env, st: Store, p: Prepared, h: map<YearDir, seq<seq<Row>>>)
    requires CollisionFree(env.generationTag) && FromHistories(env, st, h)
    requires p.rows != [] && OneSymbol(p.rows, p.symbol)
    ensures var first := PublishGeneration(env, st, p);
            && first.Ok? && first.value.name in first.value.files
            && PublishGeneration(env, st.(years := st.years[DirOf(p) := first.value.files]), p) == first
  {
    var past := HistoryOf(h, st, DirOf(p));
    PublishOnHistory(env, st, p, h);
    forall r | r in p.rows
      ensures HasKey(Flat(past + [p.rows]), KeyOf(r))
    {
      assert r in Flat(past + [p.rows]);
      var i :| 0 <= i < |Flat(past + [p.rows])| && Flat(past + [p.rows])[i] == r;
    }
    ReplayPublishesNothing(env.generationTag, past + [p.rows], p.rows, p.symbol);
  }

  lemma RetryAfterPublish(env: Env, s1: Store, p: Prepared, h: map<YearDir, seq<seq<Row>>>, stages: nat)
    requires CollisionFree(env.generationTag) && FromHistories(env, s1, h)
    requires p.rows != [] && OneSymbol(p.rows, p.symbol)
    ensures PersistPublished(env, PersistPublished(env, s1, p, stages), p, 4) == PersistPublished(env, s1, p, 4)
  {
    if stages > 1 {
      PublishIsIdempotent(env, s1, p, h);
      var g := PublishGeneration(env, s1, p).value;
      var s2 := s1.(years := s1.years[DirOf(p) := g.files]);
      RecordingTwice(env, s2, p, g, stages);
      var t := PersistRecorded(env, s2, p, g, stages);
      assert PublishGeneration(env, t, p) == PublishGeneration(env, s2, p);
      assert t.years[DirOf(p) := g.files] == t.years;
    }
  }

  lemma RecordingTwice(env: Env, s2: Store, p: Prepared, g: Published, stages: nat)
    requires p.rows != [] && g.name in g.files
    ensures PersistRecorded(env, s2, p, g, stages).years == s2.years
    ensures PersistRecorded(env, PersistRecorded(env, s2, p, g, stages), p, g, 4) == PersistRecorded(env, s2, p, g, 4)
  {
    AppendOnceTwice(s2.manifest, ManifestRowOf(env, p, g));
  }

  /** Main result: whatever a crash left behind, retrying the batch ends in the store of an uncrashed call. */
  lemma RetryConverges(env: Env, st: Store, p: Prepared, h: map<YearDir, seq<seq<Row>>>, stages: nat)
    requires CollisionFree(env.generationTag) && FromHistories(env, st, h)
    requires p.rows != [] && OneSymbol(p.rows, p.symbol)
    ensures Persist(env, Persist(env, st, p, stages), p, 4) == Persist(env, st, p, 4)
  {
    var putRaw := PutRaw(env, st, p);
    if stages > 0 && putRaw.Ok? {
      var s1 := putRaw.value;
      RetryAfterPublish(env, s1, p, h, stages);
      var t := PersistPublished(env, s1, p, stages);
      assert t.raw == s1.raw;
      assert PutRaw(env, t, p) == Ok(t);
    }
  }

  lemma AppendOnceTwice(manifest: seq<ManifestRow>, row: ManifestRow)
    ensures AppendOnce(AppendOnce(manifest, row), row) == AppendOnce(manifest, row)
  {
    var once := AppendOnce(manifest, row);
    if once != manifest {
      assert SameManifestKey(once[|manifest|], row);
    }
  }

  lemma ExtendHistory(env: Env, a: Store, b: Store, h: map<YearDir, seq<seq<Row>>>, d: YearDir, past: seq<seq<Row>>,
                      batch: seq<Row>)
    requires FromHistories(env, a, h) && OneSymbol(Flat(past) + batch, d.0)
    requires b.years == a.years[d := Generations(env.generationTag, past + [batch])]
    ensures FromHistories(env, b, h[d := past + [batch]])
  {
  }

  lemma PersistYears(env: Env, st: Store, p: Prepared, stages: nat)
    requires p.rows != [] && PutRaw(env, st, p).Ok? && stages > 1
    requires PublishGeneration(env, PutRaw(env, st, p).value, p).Ok?
    ensures PublishGeneration(env, PutRaw(env, st, p).value, p) == PublishGeneration(env, st, p)
    ensures Persist(env, st, p, stages).years == st.years[DirOf(p) := PublishGeneration(env, st, p).value.files]
  {
    assert PutRaw(env, st, p).value.years == st.years;
  }

  lemma PersistKeepsHistories(env: Env, st: Store, p: Prepared, stages: nat, h: map<YearDir, seq<seq<Row>>>)
      returns (h': map<YearDir, seq<seq<Row>>>)
    requires CollisionFree(env.generationTag) && FromHistories(env, st, h)
    requires p.rows != [] && OneSymbol(p.rows, p.symbol)
    ensures FromHistories(env, Persist(env, st, p, stages), h')
  {
    h' := h;
    if stages > 1 && PutRaw(env, st, p).Ok? {
      PublishOnHistory(env, st, p, h);
      PersistYears(env, st, p, stages);
      var past := HistoryOf(h, st, DirOf(p));
      ExtendHistory(env, st, Persist(env, st, p, stages), h, DirOf(p), past, p.rows);
      h' := h[DirOf(p) := past + [p.rows]];
    }
  }

  /** The directories of any run, crashes included, are directories of histories, so every retry in it converges. */
  lemma {:induction false} RunsKeepHistories(env: Env, calls: seq<Call>) returns (h: map<YearDir, seq<seq<Row>>>)
    requires CollisionFree(env.generationTag)
    ensures FromHistories(env, RunCalls(env, EMPTY, calls), h)
  {
    h := map[];
    if calls != [] {
      var before, c := RunCalls(env, EMPTY, calls[..|calls| - 1]), calls[|calls| - 1];
      h := RunsKeepHistories(env, calls[..|calls| - 1]);
      var prepared := Prepare(env, c.batch, c.diskOk);
      if prepared.Ok? && prepared.value.Some? {
        PreparedIsNonEmpty(env, c.batch, c.diskOk);
        h := PersistKeepsHistories(env, before, prepared.value.value, c.stages, h);
      }
    }
  }
}
