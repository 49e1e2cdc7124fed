/** `enforce_retention_policy` of retention.py: what is deleted, what is kept and what the ledger records. */
module Retention {
  import opened Common
  import opened Strings
  import opened RetentionHolds
  import GapRegistry
  import Reconciliation

  const DAY := 86_400

  datatype Category = RawWsFiles | RealtimeFiles | SubMinuteBuckets

  /**
   A scanned file.  `category` is what it is judged as, if anything; `age` its semantic age timestamp, absent when
   resolving it raises; `locked` when the file cannot be removed.
   */
  datatype Artifact = Artifact(path: string, name: string, category: Option<Category>, age: Option<int>, locked: bool)

  datatype Area = RawWs | NormalizedRealtime | TradeBucket

  /** A bucket counts as sub-minute by a marker in its path; any other bucket is never judged. */
  function CategoryOf(area: Area, path: string): Option<Category> {
    match area
    case RawWs => Some(RawWsFiles)
    case NormalizedRealtime => Some(RealtimeFiles)
    case TradeBucket =>
      if Marked(path) then Some(SubMinuteBuckets) else None
  }

  predicate Marked(path: string) {
    HasSubstring(path, "granularity=1s") || HasSubstring(path, "granularity=5s")
  }

  /** A file found under one of the three directories. */
  function Scanned(area: Area, path: string, name: string, age: Option<int>, locked: bool): Artifact {
    Artifact(path, name, CategoryOf(area, path), age, locked)
  }

  /** Days a category is kept; the source's defaults are 30, 30 and 90. */
  datatype Policy = Policy(rawDays: int, realtimeDays: int, subMinuteDays: int)

  function MaxDays(c: Category, p: Policy): int {
    match c
    case RawWsFiles => p.rawDays
    case RealtimeFiles => p.realtimeDays
    case SubMinuteBuckets => p.subMinuteDays
  }

  // ---------------------------------------------------------------- protection

  datatype Protection = Protection(holds: seq<Hold>, gapIds: set<string>, tradeIds: set<string>)

  ghost predicate NamesOne(name: string, ids: set<string>) {
    exists id :: id in ids && HasSubstring(name, id)
  }

  ghost predicate Protected(name: string, p: Protection) {
    Held(p.holds, name) || NamesOne(name, p.gapIds) || NamesOne(name, p.tradeIds)
  }

  predicate Unresolved(e: GapRegistry.Entry) {
    e.status.Open? || e.status.Partial? || e.status.Unknown?
  }

  /** The ids, as text, of the unresolved gaps the registry lists. */
  function UnresolvedIds(log: GapRegistry.Log, text: nat -> string): set<string> {
    set e | e in GapRegistry.Listed(log) && Unresolved(e) :: text(e.id)
  }

  /** A reconciliation on record: its verdict and its recorded discrepancies. */
  datatype Reconciled = Reconciled(proven: bool, matched: bool, details: seq<Reconciliation.Discrepancy>)

  function ConflictIds(records: seq<Reconciled>): set<string> {
    set i, j | 0 <= i < |records| && !(records[i].proven && records[i].matched) && 0 <= j < |records[i].details|
               && records[i].details[j].key != "" :: records[i].details[j].key
  }

  /** Whatever names an unresolved gap, by the last state on record, is protected. */
  lemma UnresolvedGapsProtect(log: GapRegistry.Log, text: nat -> string, e: GapRegistry.Entry, name: string,
                              p: Protection)
    requires GapRegistry.Latest(log, e.id) == Some(e) && Unresolved(e)
    requires p.gapIds == UnresolvedIds(log, text) && HasSubstring(name, text(e.id))
    ensures Protected(name, p)
  {
    GapRegistry.ListedExactly(log, e);
    assert text(e.id) in p.gapIds;
  }

  /** Whatever names the key of a discrepancy that made it into the record is protected. */
  lemma ConflictsProtect(records: seq<Reconciled>, i: nat, keys: seq<string>, s: Reconciliation.Sources,
                         d: Reconciliation.Discrepancy, name: string, p: Protection)
    requires i < |records| && !records[i].proven
    requires records[i].details == Reconciliation.First50(Reconciliation.Details(keys, s))
    requires d in Reconciliation.First50(Reconciliation.Details(keys, s)) && d.key != ""
    requires p.tradeIds == ConflictIds(records) && HasSubstring(name, d.key)
    ensures Protected(name, p) && d.key in keys && Reconciliation.Listable(d, s)
  {
    Reconciliation.DetailsExactly(keys, s);
    var j :| 0 <= j < |records[i].details| && records[i].details[j] == d;
    assert d.key in p.tradeIds;
  }

  // ---------------------------------------------------------------- one run

  datatype Setting = Setting(now: int, policy: Policy, protection: Protection)

  ghost predicate Expired(a: Artifact, s: Setting) {
    && a.category.Some?
    && !Protected(a.name, s.protection)
    && a.age.Some? && a.age.value < s.now - MaxDays(a.category.value, s.policy) * DAY
  }

  ghost predicate Removable(a: Artifact, s: Setting) {
    Expired(a, s) && !a.locked
  }

  ghost function Kept(files: seq<Artifact>, s: Setting): seq<Artifact> {
    if files == [] then []
    else
      var a := files[|files| - 1];
      Kept(files[..|files| - 1], s) + if Removable(a, s) then [] else [a]
  }

  ghost function Deleted(files: seq<Artifact>, s: Setting): seq<Artifact> {
    if files == [] then []
    else
      var a := files[|files| - 1];
      Deleted(files[..|files| - 1], s) + if Removable(a, s) then [a] else []
  }

  /** `pruned_counts` of one category. */
  ghost function Pruned(files: seq<Artifact>, c: Category, s: Setting): nat {
    if files == [] then 0
    else
      var a := files[|files| - 1];
      Pruned(files[..|files| - 1], c, s) + if Expired(a, s) && a.category == Some(c) then 1 else 0
  }

  datatype LedgerLine = LedgerLine(path: string, category: Category, age: int)

  ghost function Lines(deleted: seq<Artifact>): seq<LedgerLine>
    requires forall i :: 0 <= i < |deleted| ==> deleted[i].category.Some? && deleted[i].age.Some?
  {
    if deleted == [] then []
    else
      var a := deleted[|deleted| - 1];
      Lines(deleted[..|deleted| - 1]) + [LedgerLine(a.path, a.category.value, a.age.value)]
  }

  lemma {:induction false} DeletedAreRemovable(files: seq<Artifact>, s: Setting)
    ensures forall i :: 0 <= i < |Deleted(files, s)| ==> Removable(Deleted(files, s)[i], s)
  {
    if files != [] {
      DeletedAreRemovable(files[..|files| - 1], s);
    }
  }

  /** The ledger lines of a run. */
  ghost function Recorded(files: seq<Artifact>, s: Setting): seq<LedgerLine> {
    DeletedAreRemovable(files, s);
    Lines(Deleted(files, s))
  }

  method AnyNamed(name: string, ids: set<string>) returns (r: bool)
    ensures r <==> NamesOne(name, ids)
  {
    var rest := ids;
    r := false;
    while rest != {} && !r
      invariant rest <= ids && (r ==> NamesOne(name, ids))
      invariant !r ==> forall id :: id in ids && id !in rest ==> !HasSubstring(name, id)
      decreases |rest|, !r
    {
      var id := Pick(rest);
      rest := rest - {id};
      r := HasSubstring(name, id);
    }
  }

  method IsProtected(name: string, p: Protection) returns (r: bool)
    ensures r <==> Protected(name, p)
  {
    if Held(p.holds, name) {
      return true;
    }
    r := AnyNamed(name, p.gapIds);
    if !r {
      r := AnyNamed(name, p.tradeIds);
    }
  }

  /** The checks of `_evaluate_file` before anything is deleted. */
  method IsExpired(a: Artifact, s: Setting) returns (r: bool)
    ensures r <==> Expired(a, s)
  {
    var category := a.category;
    if category.None? {
      return false;
    }
    var protected := IsProtected(a.name, s.protection);
    if protected || a.age.None? {
      return false;
    }
    r := a.age.value < s.now - MaxDays(category.value, s.policy) * DAY;
  }

  datatype Counts = Counts(rawWs: nat, realtime: nat, subMinute: nat)

  ghost function PrunedCounts(files: seq<Artifact>, s: Setting): Counts {
    Counts(Pruned(files, RawWsFiles, s), Pruned(files, RealtimeFiles, s), Pruned(files, SubMinuteBuckets, s))
  }

  function Bumped(n: Counts, c: Category): Counts {
    match c
    case RawWsFiles => n.(rawWs := n.rawWs + 1)
    case RealtimeFiles => n.(realtime := n.realtime + 1)
    case SubMinuteBuckets => n.(subMinute := n.subMinute + 1)
  }

  lemma CountsAppend(files: seq<Artifact>, a: Artifact, s: Setting)
    ensures PrunedCounts(files + [a], s)
            == if Expired(a, s) then Bumped(PrunedCounts(files, s), a.category.value) else PrunedCounts(files, s)
  {
    assert (files + [a])[..|files|] == files;
  }

  lemma KeptAppend(files: seq<Artifact>, a: Artifact, s: Setting)
    ensures Kept(files + [a], s) == if Removable(a, s) then Kept(files, s) else Kept(files, s) + [a]
    ensures Deleted(files + [a], s) == if Removable(a, s) then Deleted(files, s) + [a] else Deleted(files, s)
  {
    assert (files + [a])[..|files|] == files;
    assert Kept(files, s) + [] == Kept(files, s) && Deleted(files, s) + [] == Deleted(files, s);
  }

  ghost function LineOf(a: Artifact): LedgerLine
    requires a.category.Some? && a.age.Some?
  {
    LedgerLine(a.path, a.category.value, a.age.value)
  }

  lemma RecordedAppend(files: seq<Artifact>, a: Artifact, s: Setting)
    ensures Recorded(files + [a], s) == if Removable(a, s) then Recorded(files, s) + [LineOf(a)] else Recorded(files, s)
  {
    KeptAppend(files, a, s);
    DeletedAreRemovable(files, s);
    assert (Deleted(files, s) + [a])[..|Deleted(files, s)|] == Deleted(files, s);
  }

  /** What is left of the scanned files, and what the ledger gained. */
  ghost function Remaining(files: seq<Artifact>, s: Setting, dryRun: bool): seq<Artifact> {
    if dryRun then files else Kept(files, s)
  }

  ghost function Ledgered(files: seq<Artifact>, s: Setting, dryRun: bool): seq<LedgerLine> {
    if dryRun then [] else Recorded(files, s)
  }

  ghost predicate RightLine(line: Option<LedgerLine>, a: Artifact, s: Setting, dryRun: bool) {
    && (line.Some? <==> !dryRun && Removable(a, s))
    && (line.Some? ==> line.value == LineOf(a))
  }

  lemma RunAppend(files: seq<Artifact>, a: Artifact, s: Setting, dryRun: bool, line: Option<LedgerLine>)
    requires RightLine(line, a, s, dryRun)
    ensures Remaining(files + [a], s, dryRun)
            == if line.Some? then Remaining(files, s, dryRun) else Remaining(files, s, dryRun) + [a]
    ensures Ledgered(files + [a], s, dryRun)
            == if line.Some? then Ledgered(files, s, dryRun) + [line.value] else Ledgered(files, s, dryRun)
  {
    KeptAppend(files, a, s);
    RecordedAppend(files, a, s);
  }

  /** `_evaluate_file`: counts an expired file and, unless the run is dry or removing it fails, answers its ledger
   line. */
  method Evaluate(a: Artifact, s: Setting, dryRun: bool, n0: Counts, ghost before: seq<Artifact>)
      returns (n: Counts, line: Option<LedgerLine>)
    requires n0 == PrunedCounts(before, s)
    ensures n == PrunedCounts(before + [a], s)
    ensures RightLine(line, a, s, dryRun)
  {
    CountsAppend(before, a, s);
    var expired := IsExpired(a, s);
    n, line := n0, None;
    if expired {
      n := Bumped(n0, a.category.value);
      if !dryRun && !a.locked {
        line := Some(LedgerLine(a.path, a.category.value, a.age.value));
      }
    }
  }

  /** Moving the first of the remaining elements over, or dropping it. */
  lemma Regroup<T>(kept: seq<T>, a: T, rest: seq<T>)
    ensures kept + ([a] + rest) == kept + [a] + rest
  {
  }

  /** The scanned directories and the deletion ledger. */
  class Store {
    var files: seq<Artifact>
    var ledger: seq<LedgerLine>

    constructor (files: seq<Artifact>)
      ensures this.files == files && ledger == []
    {
      this.files, ledger := files, [];
    }

    /** Between two files: `seen` are judged, `rest` are not; `before` is the ledger of the start. */
    ghost predicate Midway(s: Setting, dryRun: bool, seen: seq<Artifact>, rest: seq<Artifact>, before: seq<LedgerLine>)
      reads this
    {
      files == Remaining(seen, s, dryRun) + rest && ledger == before + Ledgered(seen, s, dryRun)
    }

    /** Judges one file and, when it is to go, unlinks it and appends its ledger line. */
    method EvaluateFile(a: Artifact, rest: seq<Artifact>, kept: seq<Artifact>, s: Setting, dryRun: bool, n0: Counts,
                        ghost seen: seq<Artifact>, ghost before: seq<LedgerLine>)
        returns (n: Counts, kept': seq<Artifact>)
      requires n0 == PrunedCounts(seen, s) && kept == Remaining(seen, s, dryRun)
      requires Midway(s, dryRun, seen, [a] + rest, before)
      modifies this
      ensures n == PrunedCounts(seen + [a], s) && kept' == Remaining(seen + [a], s, dryRun)
      ensures Midway(s, dryRun, seen + [a], rest, before)
    {
      var line;
      n, line := Evaluate(a, s, dryRun, n0, seen);
      RunAppend(seen, a, s, dryRun, line);
      if line.Some? {
        kept' := kept;
        files := kept + rest;
        Regroup(before, line.value, []);
        ledger := ledger + [line.value];
      } else {
        kept' := kept + [a];
        Regroup(kept, a, rest);
      }
    }

    /** A dry run counts exactly what a real run counts, and changes nothing. */
    method Enforce(s: Setting, dryRun: bool) returns (counts: Counts)
      modifies this
      ensures counts == PrunedCounts(old(files), s)
      ensures files == Remaining(old(files), s, dryRun)
      ensures ledger == old(ledger) + Ledgered(old(files), s, dryRun)
    {
      var rest, kept := files, [];
      counts := Counts(0, 0, 0);
      ghost var seen: seq<Artifact> := [];
      while rest != []
        invariant seen + rest == old(files)
        invariant counts == PrunedCounts(seen, s) && kept == Remaining(seen, s, dryRun)
        invariant Midway(s, dryRun, seen, rest, old(ledger))
        decreases |rest|
      {
        assert rest == [rest[0]] + rest[1..];
        Regroup(seen, rest[0], rest[1..]);
        counts, kept := EvaluateFile(rest[0], rest[1..], kept, s, dryRun, counts, seen, old(ledger));
        seen, rest := seen + [rest[0]], rest[1..];
      }
      assert seen == old(files);
    }
  }

  // ---------------------------------------------------------------- what a run guarantees

  ghost predicate Conserved(files: seq<Artifact>, s: Setting) {
    multiset(Kept(files, s)) + multiset(Deleted(files, s)) == multiset(files)
  }

  /** Conservation: every scanned file is kept or deleted, never both and never duplicated. */
  lemma {:induction false} FilesConserved(files: seq<Artifact>, s: Setting)
    ensures Conserved(files, s)
  {
    if files != [] {
      var prefix, a := files[..|files| - 1], files[|files| - 1];
      assert files == prefix + [a];
      FilesConserved(prefix, s);
    }
  }

  /** One ledger line per deleted file. */
  lemma {:induction false} LinePerDeletion(files: seq<Artifact>, s: Setting)
    ensures |Recorded(files, s)| == |Deleted(files, s)|
    ensures |Recorded(files, s)| + |Kept(files, s)| == |files|
  {
    if files != [] {
      var prefix, a := files[..|files| - 1], files[|files| - 1];
      LinePerDeletion(prefix, s);
      assert files == prefix + [a];
      KeptAppend(prefix, a, s);
      RecordedAppend(prefix, a, s);
    }
  }

  ghost function LockedExpired(files: seq<Artifact>, s: Setting): nat {
    if files == [] then 0
    else
      var a := files[|files| - 1];
      LockedExpired(files[..|files| - 1], s) + if Expired(a, s) && a.locked then 1 else 0
  }

  ghost function Total(n: Counts): nat {
    n.rawWs + n.realtime + n.subMinute
  }

  ghost predicate Balanced(files: seq<Artifact>, s: Setting) {
    Total(PrunedCounts(files, s)) == |Recorded(files, s)| + LockedExpired(files, s)
  }

  lemma BalancedStep(files: seq<Artifact>, a: Artifact, s: Setting)
    requires Balanced(files, s)
    ensures Balanced(files + [a], s)
  {
    LinesAppend(files, a, s);
  }

  lemma LinesAppend(files: seq<Artifact>, a: Artifact, s: Setting)
    ensures |Recorded(files + [a], s)| == |Recorded(files, s)| + if Removable(a, s) then 1 else 0
  {
    RecordedAppend(files, a, s);
  }

  /** The counts exceed the deletions by exactly the expired files that could not be removed. */
  lemma {:induction false} CountsAgainstLedger(files: seq<Artifact>, s: Setting)
    ensures Balanced(files, s)
  {
    if files != [] {
      var prefix, a := files[..|files| - 1], files[|files| - 1];
      assert files == prefix + [a];
      CountsAgainstLedger(prefix, s);
      BalancedStep(prefix, a, s);
    }
  }

  /** Main result: a file is deleted exactly when it was scanned, expired, unprotected and removable; else it is
   kept. */
  lemma {:induction false} DeletedExactly(files: seq<Artifact>, s: Setting, a: Artifact)
    ensures a in Deleted(files, s) <==> a in files && Removable(a, s)
    ensures a in Kept(files, s) <==> a in files && !Removable(a, s)
  {
    if files != [] {
      var prefix, last := files[..|files| - 1], files[|files| - 1];
      assert files == prefix + [last];
      DeletedExactly(prefix, s, a);
      KeptAppend(prefix, last, s);
    }
  }

  /** No deleted file is protected, and each was strictly older than its category allows. */
  lemma NothingProtectedIsDeleted(files: seq<Artifact>, s: Setting, a: Artifact)
    requires a in Deleted(files, s)
    ensures !Held(s.protection.holds, a.name)
    ensures forall id :: id in s.protection.gapIds + s.protection.tradeIds ==> !HasSubstring(a.name, id)
    ensures a.category.Some? && a.age.Some? && a.age.value < s.now - MaxDays(a.category.value, s.policy) * DAY
  {
    DeletedExactly(files, s, a);
  }

  /** A bucket that is old enough, unprotected and removable is kept exactly when its path carries neither marker. */
  lemma BucketKeptExactly(files: seq<Artifact>, s: Setting, path: string, name: string, age: int)
    requires Scanned(TradeBucket, path, name, Some(age), false) in files
    requires !Protected(name, s.protection) && age < s.now - s.policy.subMinuteDays * DAY
    ensures Scanned(TradeBucket, path, name, Some(age), false) in Kept(files, s) <==> !Marked(path)
  {
    DeletedExactly(files, s, Scanned(TradeBucket, path, name, Some(age), false));
  }

  /** A bucket whose path carries neither marker is kept whatever its age. */
  lemma UnmarkedBucketsAreKept(files: seq<Artifact>, s: Setting, path: string, name: string, age: Option<int>)
    requires !Marked(path) && Scanned(TradeBucket, path, name, age, false) in files
    ensures Scanned(TradeBucket, path, name, age, false) in Kept(files, s)
  {
    DeletedExactly(files, s, Scanned(TradeBucket, path, name, age, false));
  }

  /** `t` is as lenient as `s`: not earlier, same policy, protecting no more. */
  ghost predicate Later(s: Setting, t: Setting) {
    && s.now <= t.now && s.policy == t.policy
    && forall name :: Protected(name, t.protection) ==> Protected(name, s.protection)
  }

  lemma LaterRunRemovesToo(s: Setting, t: Setting, a: Artifact)
    requires Later(s, t) && Removable(a, s)
    ensures Removable(a, t)
  {
  }

  /** Main result: a run followed by a later one leaves what the later one alone leaves. */
  lemma {:induction false} LaterRunSubsumes(files: seq<Artifact>, s: Setting, t: Setting)
    requires Later(s, t)
    ensures Kept(Kept(files, s), t) == Kept(files, t)
  {
    if files != [] {
      var prefix, a := files[..|files| - 1], files[|files| - 1];
      LaterRunSubsumes(prefix, s, t);
      assert files == prefix + [a];
      KeptAppend(prefix, a, s);
      KeptAppend(prefix, a, t);
      if Removable(a, s) {
        LaterRunRemovesToo(s, t, a);
      } else {
        KeptAppend(Kept(prefix, s), a, t);
      }
    }
  }

  /** Over both runs the ledger gains as many lines as the later run alone would have written. */
  lemma LedgerGainsAdd(files: seq<Artifact>, s: Setting, t: Setting)
    requires Later(s, t)
    ensures |Recorded(files, s)| + |Recorded(Kept(files, s), t)| == |Recorded(files, t)|
  {
    LaterRunSubsumes(files, s, t);
    LinePerDeletion(files, s);
    LinePerDeletion(files, t);
    LinePerDeletion(Kept(files, s), t);
  }

  /** A second run at the same clock deletes nothing and counts only what could not be removed. */
  lemma SecondRunDeletesNothing(files: seq<Artifact>, s: Setting)
    ensures Kept(Kept(files, s), s) == Kept(files, s) && Recorded(Kept(files, s), s) == []
    ensures Total(PrunedCounts(Kept(files, s), s)) == LockedExpired(files, s)
  {
    LaterRunSubsumes(files, s, s);
    LinePerDeletion(Kept(files, s), s);
    CountsAgainstLedger(Kept(files, s), s);
    LockedStay(files, s);
    assert Balanced(Kept(files, s), s);
  }

  lemma {:induction false} LockedStay(files: seq<Artifact>, s: Setting)
    ensures LockedExpired(Kept(files, s), s) == LockedExpired(files, s)
  {
    if files != [] {
      var prefix, a := files[..|files| - 1], files[|files| - 1];
      LockedStay(prefix, s);
      assert files == prefix + [a];
      KeptAppend(prefix, a, s);
    }
  }
}
