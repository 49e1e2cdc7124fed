/** The periods, protections, counts and ledger of a retention run, in plain numbers and columns. */
module RetentionRules {
  import opened Common
  import opened Strings
  import opened RetentionHolds
  import opened Retention
  import GapRegistry

  /** The policy used when none is given. */
  const DefaultPolicy := Policy(30, 30, 90)

  /** Whole seconds a file of a category is kept. */
  function PeriodSeconds(c: Category, p: Policy): int {
    match c
    case RawWsFiles => 86_400 * p.rawDays
    case RealtimeFiles => 86_400 * p.realtimeDays
    case SubMinuteBuckets => 86_400 * p.subMinuteDays
  }

  /** Some active hold, unresolved gap id or recorded conflict id occurs in the name. */
  ghost predicate Shielded(name: string, p: Protection) {
    || (exists h :: h in p.holds && h.active && HasSubstring(name, h.target))
    || (exists id :: id in p.gapIds && HasSubstring(name, id))
    || (exists id :: id in p.tradeIds && HasSubstring(name, id))
  }

  lemma ShieldedExactly(name: string, p: Protection)
    ensures Shielded(name, p) <==> Protected(name, p)
  {
    if Held(p.holds, name) {
      var i :| 0 <= i < |p.holds| && p.holds[i].active && HasSubstring(name, p.holds[i].target);
      assert p.holds[i] in p.holds;
    }
    if h :| h in p.holds && h.active && HasSubstring(name, h.target) {
      var i :| 0 <= i < |p.holds| && p.holds[i] == h;
      assert Held(p.holds, name);
    }
  }

  /** Main result: a file goes exactly when it is judged, nothing shields it, it can be removed and it has been kept
      longer than its period. */
  lemma DeletedAfterPeriod(files: seq<Artifact>, s: Setting, a: Artifact)
    ensures a in Deleted(files, s)
            <==> && a in files && !a.locked && !Shielded(a.name, s.protection)
                 && a.category.Some? && a.age.Some? && s.now - a.age.value > PeriodSeconds(a.category.value, s.policy)
  {
    ShieldedExactly(a.name, s.protection);
    DeletedExactly(files, s, a);
  }

  /** By default raw envelopes and realtime trades are kept 30 days, marked buckets 90 days, to the second. */
  lemma DefaultPeriods(files: seq<Artifact>, now: int, p: Protection, area: Area, path: string, name: string, age: int)
    requires Scanned(area, path, name, Some(age), false) in files && !Shielded(name, p)
    ensures Scanned(area, path, name, Some(age), false) in Deleted(files, Setting(now, DefaultPolicy, p))
            <==> match area
                 case RawWs => now - age > 2_592_000
                 case NormalizedRealtime => now - age > 2_592_000
                 case TradeBucket => Marked(path) && now - age > 7_776_000
  {
    DeletedAfterPeriod(files, Setting(now, DefaultPolicy, p), Scanned(area, path, name, Some(age), false));
  }

  /** `e` is the last state on record of its gap, which is open, partial or unknown and has this id. */
  ghost predicate Pending(log: GapRegistry.Log, text: nat -> string, id: string, e: GapRegistry.Entry) {
    && GapRegistry.Latest(log, e.id) == Some(e) && text(e.id) == id
    && (e.status == GapRegistry.Open || e.status == GapRegistry.Partial || e.status == GapRegistry.Unknown)
  }

  /** A gap id protects exactly while the last state on record of its gap is open, partial or unknown. */
  lemma UnresolvedExactly(log: GapRegistry.Log, text: nat -> string, id: string)
    ensures id in UnresolvedIds(log, text) <==> exists e :: Pending(log, text, id, e)
  {
    if id in UnresolvedIds(log, text) {
      var e :| e in GapRegistry.Listed(log) && Unresolved(e) && text(e.id) == id;
      GapRegistry.ListedExactly(log, e);
      assert Pending(log, text, id, e);
    }
    if e :| Pending(log, text, id, e) {
      GapRegistry.ListedExactly(log, e);
    }
  }

  // ---------------------------------------------------------------- counts and ledger

  /** The positions of the expired files of a category. */
  ghost function ExpiredAt(files: seq<Artifact>, c: Category, s: Setting): set<int> {
    set i | 0 <= i < |files| && files[i].category == Some(c) && Expired(files[i], s)
  }

  lemma SetGrows(a: set<int>, b: set<int>, n: int, more: bool)
    requires n !in a && b == if more then a + {n} else a
    ensures |b| == |a| + if more then 1 else 0
  {
  }

  lemma ExpiredAtGrows(files: seq<Artifact>, a: Artifact, c: Category, s: Setting, more: bool)
    requires more <==> a.category == Some(c) && Expired(a, s)
    ensures ExpiredAt(files + [a], c, s)
            == if more then ExpiredAt(files, c, s) + {|files|} else ExpiredAt(files, c, s)
  {
    var longer := files + [a];
    forall i | 0 <= i < |longer|
      ensures longer[i] == if i < |files| then files[i] else a
    {
    }
  }

  lemma ExpiredAtAppend(files: seq<Artifact>, a: Artifact, c: Category, s: Setting)
    ensures |ExpiredAt(files + [a], c, s)|
            == |ExpiredAt(files, c, s)| + if a.category == Some(c) && Expired(a, s) then 1 else 0
  {
    var more := a.category == Some(c) && Expired(a, s);
    ExpiredAtGrows(files, a, c, s, more);
    SetGrows(ExpiredAt(files, c, s), ExpiredAt(files + [a], c, s), |files|, more);
  }

  lemma PrunedAppend(files: seq<Artifact>, a: Artifact, c: Category, s: Setting)
    ensures Pruned(files + [a], c, s) == Pruned(files, c, s) + if a.category == Some(c) && Expired(a, s) then 1 else 0
  {
    assert (files + [a])[..|files|] == files;
  }

  lemma {:induction false} PrunedExactly(files: seq<Artifact>, c: Category, s: Setting)
    ensures Pruned(files, c, s) == |ExpiredAt(files, c, s)|
  {
    if files == [] {
      assert ExpiredAt(files, c, s) == {};
    } else {
      var prefix, a := files[..|files| - 1], files[|files| - 1];
      assert files == prefix + [a];
      PrunedExactly(prefix, c, s);
      ExpiredAtAppend(prefix, a, c, s);
      PrunedAppend(prefix, a, c, s);
    }
  }

  /** Each count of a run is the number of expired files of that category. */
  lemma CountsExactly(files: seq<Artifact>, s: Setting)
    ensures PrunedCounts(files, s).rawWs == |ExpiredAt(files, RawWsFiles, s)|
    ensures PrunedCounts(files, s).realtime == |ExpiredAt(files, RealtimeFiles, s)|
    ensures PrunedCounts(files, s).subMinute == |ExpiredAt(files, SubMinuteBuckets, s)|
  {
    PrunedExactly(files, RawWsFiles, s);
    PrunedExactly(files, RealtimeFiles, s);
    PrunedExactly(files, SubMinuteBuckets, s);
  }

  lemma {:induction false} LinesExactly(deleted: seq<Artifact>)
    requires forall i :: 0 <= i < |deleted| ==> deleted[i].category.Some? && deleted[i].age.Some?
    ensures |Lines(deleted)| == |deleted|
    ensures forall i :: 0 <= i < |deleted| ==>
              && Lines(deleted)[i].path == deleted[i].path && Some(Lines(deleted)[i].category) == deleted[i].category
              && Some(Lines(deleted)[i].age) == deleted[i].age
  {
    if deleted != [] {
      LinesExactly(deleted[..|deleted| - 1]);
    }
  }

  /** The ledger gains one line per deleted file, in scan order, with its path, category and age. */
  lemma LedgerExactly(files: seq<Artifact>, s: Setting)
    ensures |Recorded(files, s)| == |Deleted(files, s)|
    ensures forall i :: 0 <= i < |Deleted(files, s)| ==>
              && Recorded(files, s)[i].path == Deleted(files, s)[i].path
              && Some(Recorded(files, s)[i].category) == Deleted(files, s)[i].category
              && Some(Recorded(files, s)[i].age) == Deleted(files, s)[i].age
  {
    DeletedAreRemovable(files, s);
    LinesExactly(Deleted(files, s));
  }

  // ---------------------------------------------------------------- conflicts

  /** A trade id protects exactly when a reconciliation without proven coverage, or without a match, recorded it. */
  lemma ConflictIdsExactly(records: seq<Reconciled>, id: string)
    ensures id in ConflictIds(records)
            <==> id != "" && exists r, d :: r in records && (!r.proven || !r.matched) && d in r.details && d.key == id
  {
    if id in ConflictIds(records) {
      var i, j :| 0 <= i < |records| && !(records[i].proven && records[i].matched) && 0 <= j < |records[i].details|
                  && records[i].details[j].key == id && id != "";
      assert records[i] in records && records[i].details[j] in records[i].details;
    }
    if r, d :| r in records && (!r.proven || !r.matched) && d in r.details && d.key == id {
      var i :| 0 <= i < |records| && records[i] == r;
      var j :| 0 <= j < |r.details| && r.details[j] == d;
    }
  }
}
