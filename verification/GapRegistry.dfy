/** The append-only gap registry of gap_registry.py. */
module GapRegistry {
  import opened Common

  datatype GapStatus = Open | Recovered | Partial | Unrecoverable | Unknown

  datatype CoverageMethod = TradeIdSequenceComplete | TimestampRangeBounded | RecentTradeWindowBounded

  /** A recorded trade id (`str | None`): missing, empty, an integer literal, or other text. */
  datatype TradeId = NoId | EmptyId | IdNumber(value: int) | IdText

  /** What is fixed when a gap is registered. */
  datatype Facts = Facts(exchange: string, marketType: string, datasetClass: string, start: int, end: int,
                         sessionBefore: Option<string>, sessionAfter: Option<string>, preId: TradeId, postId: TradeId)

  datatype Evidence = NoEvidence | Disconnect(reason: string, dropped: Option<int>)

  datatype Recovery = Recovery(attempted: bool, records: nat, pages: nat, limit: Option<nat>,
                               proven: bool, method_: Option<CoverageMethod>)

  /** One line of the manifest. */
  datatype Entry = Entry(id: nat, facts: Facts, status: GapStatus, recovery: Recovery, evidence: Evidence)

  type Log = seq<Entry>

  const FreshRecovery := Recovery(false, 0, 0, None, false, None)

  function Opened(id: nat, facts: Facts, evidence: Evidence): Entry {
    Entry(id, facts, Open, FreshRecovery, evidence)
  }

  /** A gap starts out open, with no recovery attempted and nothing proven. */
  lemma OpenedExactly(id: nat, facts: Facts, evidence: Evidence)
    ensures var e := Opened(id, facts, evidence);
            && e.id == id && e.facts == facts && e.evidence == evidence && e.status == Open
            && !e.recovery.attempted && !e.recovery.proven && e.recovery.method_.None?
            && e.recovery.records == 0 && e.recovery.pages == 0 && e.recovery.limit.None?
  {
  }

  // ---------------------------------------------------------------- what a reader sees

  /** The last line about a gap. */
  function Latest(log: Log, id: nat): Option<Entry> {
    if log == [] then None
    else if log[|log| - 1].id == id then Some(log[|log| - 1])
    else Latest(log[..|log| - 1], id)
  }

  /** Ids in the order they first appear. */
  function Ids(log: Log): seq<nat> {
    if log == [] then []
    else
      var ids, id := Ids(log[..|log| - 1]), log[|log| - 1].id;
      if id in ids then ids else ids + [id]
  }

  predicate Distinct(s: seq<nat>) {
    forall i, j :: 0 <= i < j < |s| ==> s[i] != s[j]
  }

  lemma {:induction false} IdsExactly(log: Log)
    ensures Distinct(Ids(log))
    ensures forall id :: id in Ids(log) <==> Latest(log, id).Some?
    ensures forall id :: Latest(log, id).Some? ==> Latest(log, id).value.id == id && Latest(log, id).value in log
  {
    if log != [] {
      IdsExactly(log[..|log| - 1]);
      assert log == log[..|log| - 1] + [log[|log| - 1]];
    }
  }

  /** The latest state of every gap, in order of registration. */
  function Listed(log: Log): seq<Entry> {
    IdsExactly(log);
    Collect(log, Ids(log))
  }

  function Collect(log: Log, ids: seq<nat>): seq<Entry>
    requires forall i :: 0 <= i < |ids| ==> Latest(log, ids[i]).Some?
  {
    if ids == [] then [] else Collect(log, ids[..|ids| - 1]) + [Latest(log, ids[|ids| - 1]).value]
  }

  lemma {:induction false} CollectAt(log: Log, ids: seq<nat>)
    requires forall i :: 0 <= i < |ids| ==> Latest(log, ids[i]).Some?
    ensures |Collect(log, ids)| == |ids|
    ensures forall i :: 0 <= i < |ids| ==> Collect(log, ids)[i] == Latest(log, ids[i]).value
  {
    if ids != [] {
      CollectAt(log, ids[..|ids| - 1]);
    }
  }

  lemma ListedAt(log: Log, i: nat)
    requires i < |Ids(log)|
    ensures |Listed(log)| == |Ids(log)|
    ensures Latest(log, Ids(log)[i]) == Some(Listed(log)[i]) && Listed(log)[i].id == Ids(log)[i]
  {
    IdsExactly(log);
    CollectAt(log, Ids(log));
    assert Ids(log)[i] in Ids(log);
  }

  /** Main result: the listing holds the last line of every gap once, and lists nothing else. */
  lemma ListedExactly(log: Log, e: Entry)
    ensures e in Listed(log) <==> Latest(log, e.id) == Some(e)
    ensures |Listed(log)| == |Ids(log)| && Distinct(Ids(log))
    ensures forall i :: 0 <= i < |Ids(log)| ==> Listed(log)[i].id == Ids(log)[i]
  {
    IdsExactly(log);
    CollectAt(log, Ids(log));
    forall i | 0 <= i < |Ids(log)|
      ensures Listed(log)[i].id == Ids(log)[i] && Latest(log, Ids(log)[i]) == Some(Listed(log)[i])
    {
      ListedAt(log, i);
    }
    if Latest(log, e.id) == Some(e) {
      var i :| 0 <= i < |Ids(log)| && Ids(log)[i] == e.id;
      assert Listed(log)[i] == e;
    }
  }

  /** Appending never delists a gap or changes the order of registration. */
  lemma {:induction false} IdsOnlyGrow(log: Log, more: Log)
    ensures Ids(log) <= Ids(log + more)
  {
    if more == [] {
      assert log + more == log;
    } else {
      var prefix := more[..|more| - 1];
      assert (log + more)[..|log + more| - 1] == log + prefix;
      IdsOnlyGrow(log, prefix);
    }
  }

  lemma LatestAppend(log: Log, e: Entry, id: nat)
    ensures Latest(log + [e], id) == if e.id == id then Some(e) else Latest(log, id)
    ensures Ids(log + [e]) == if e.id in Ids(log) then Ids(log) else Ids(log) + [e.id]
  {
    assert (log + [e])[..|log|] == log;
  }

  lemma {:induction false} CollectSame(a: Log, b: Log, ids: seq<nat>)
    requires forall i :: 0 <= i < |ids| ==> Latest(a, ids[i]).Some? && Latest(a, ids[i]) == Latest(b, ids[i])
    ensures Collect(a, ids) == Collect(b, ids)
  {
    if ids != [] {
      CollectSame(a, b, ids[..|ids| - 1]);
    }
  }

  /** Registering a fresh id lists the new gap after all others. */
  lemma RegisterAppends(log: Log, e: Entry)
    requires e.id !in Ids(log)
    ensures Listed(log + [e]) == Listed(log) + [e]
  {
    IdsExactly(log);
    forall i | 0 <= i < |Ids(log)|
      ensures Latest(log + [e], Ids(log)[i]) == Latest(log, Ids(log)[i])
    {
      LatestAppend(log, e, Ids(log)[i]);
      assert Ids(log)[i] in Ids(log);
    }
    LatestAppend(log, e, e.id);
    CollectSame(log, log + [e], Ids(log));
    assert (Ids(log) + [e.id])[..|Ids(log)|] == Ids(log);
  }

  lemma LastRemains(ids: seq<nat>, last: nat)
    requires Distinct(ids + [last])
    ensures last !in ids && Distinct(ids)
  {
    forall i | 0 <= i < |ids|
      ensures ids[i] != last
    {
      assert (ids + [last])[i] == ids[i] && (ids + [last])[|ids|] == last;
    }
    forall i, j | 0 <= i < j < |ids|
      ensures ids[i] != ids[j]
    {
      assert (ids + [last])[i] == ids[i] && (ids + [last])[j] == ids[j];
    }
  }

  lemma SameSplit(a: seq<Entry>, x: Entry, b: seq<Entry>, y: Entry)
    requires a + [x] == b + [y]
    ensures a == b && x == y
  {
    assert (a + [x])[..|a|] == a && (b + [y])[..|b|] == b;
    assert (a + [x])[|a|] == x && (b + [y])[|b|] == y;
  }

  /** Updating the gap registered last replaces its listing in place. */
  lemma UpdateReplacesLast(log: Log, before: seq<Entry>, e: Entry, e': Entry)
    requires Listed(log) == before + [e] && e'.id == e.id
    ensures Listed(log + [e']) == before + [e']
  {
    IdsExactly(log);
    ListedExactly(log, e);
    CollectAt(log, Ids(log));
    var ids := Ids(log)[..|Ids(log)| - 1];
    assert Ids(log) == ids + [e.id] by {
      assert Listed(log)[|before|] == e;
    }
    LastRemains(ids, e.id);
    LatestAppend(log, e', e.id);
    forall i | 0 <= i < |ids|
      ensures Latest(log, ids[i]).Some? && Latest(log + [e'], ids[i]) == Latest(log, ids[i])
    {
      LatestAppend(log, e', ids[i]);
      assert Ids(log)[i] == ids[i];
    }
    CollectSame(log, log + [e'], ids);
    SameSplit(Collect(log, ids), Latest(log, e.id).value, before, e);
  }

  /** The `dict.values()` of the source: every state of a gap written to the entry of its first appearance. */
  ghost predicate Rebuilt(order: seq<nat>, latest: map<nat, Entry>, log: Log) {
    && order == Ids(log)
    && (forall id :: id in latest <==> id in order)
    && (forall id :: id in latest ==> Latest(log, id) == Some(latest[id]))
  }

  // ---------------------------------------------------------------- the objects

  /** A gap record as its callers update it, between two appends to the registry. */
  class GapRecord {
    const id: nat
    const facts: Facts
    var status: GapStatus
    var recoveryAttempted: bool
    var recordsRecovered: nat
    var pagesRequested: nat
    var endpointLimit: Option<nat>
    var coverageProven: bool
    var coverageMethod: Option<CoverageMethod>
    var evidence: Evidence

    constructor (id: nat, facts: Facts, evidence: Evidence)
      ensures Snapshot() == Opened(id, facts, evidence)
      ensures this.id == id && this.facts == facts
    {
      this.id, this.facts, this.evidence := id, facts, evidence;
      status, recoveryAttempted, recordsRecovered, pagesRequested := Open, false, 0, 0;
      endpointLimit, coverageProven, coverageMethod := None, false, None;
    }

    /** What `to_dict` writes. */
    function Snapshot(): Entry
      reads this
    {
      Entry(id, facts, status,
            Recovery(recoveryAttempted, recordsRecovered, pagesRequested, endpointLimit, coverageProven,
                coverageMethod),
            evidence)
    }
  }

  /** The manifest file.  `minted` stands for the uuid generator: ids below it have been handed out. */
  class Registry {
    var log: Log
    var minted: nat

    predicate Valid()
      reads this
    {
      forall i :: 0 <= i < |log| ==> log[i].id < minted
    }

    constructor ()
      ensures Valid() && log == [] && minted == 0
    {
      log, minted := [], 0;
    }

    method RegisterGap(facts: Facts, evidence: Evidence) returns (record: GapRecord)
      requires Valid()
      modifies this
      ensures Valid() && fresh(record) && minted == old(minted) + 1
      ensures record.id == old(minted) && record.facts == facts
      ensures record.Snapshot() == Opened(old(minted), facts, evidence)
      ensures log == old(log) + [record.Snapshot()]
      ensures Listed(log) == Listed(old(log)) + [record.Snapshot()]
    {
      record := new GapRecord(minted, facts, evidence);
      IdsBounded(log, minted);
      RegisterAppends(log, record.Snapshot());
      minted := minted + 1;
      log := log + [record.Snapshot()];
    }

    method UpdateGap(record: GapRecord)
      requires Valid() && record.id < minted
      modifies this
      ensures Valid() && minted == old(minted)
      ensures log == old(log) + [record.Snapshot()]
    {
      log := log + [record.Snapshot()];
    }

    /** The dictionary of the source, with its insertion order written out. */
    method Rebuild() returns (order: seq<nat>, latest: map<nat, Entry>)
      ensures Rebuilt(order, latest, log)
    {
      order, latest := [], map[];
      for i := 0 to |log|
        invariant Rebuilt(order, latest, log[..i])
      {
        assert log[..i + 1] == log[..i] + [log[i]];
        if log[i].id !in latest {
          order := order + [log[i].id];
        }
        latest := latest[log[i].id := log[i]];
      }
      assert log[..|log|] == log;
    }

    method ListGaps(filter: Option<GapStatus>) returns (result: seq<Entry>)
      ensures result == Matching(Listed(log), filter)
    {
      var order, latest := Rebuild();
      IdsExactly(log);
      CollectAt(log, Ids(log));
      result := [];
      for i := 0 to |order|
        invariant result == Matching(Listed(log)[..i], filter)
      {
        ListedAt(log, i);
        assert order[i] in order;
        MatchingStep(Listed(log), i, filter);
        var e := latest[order[i]];
        if filter.None? || e.status == filter.value {
          result := result + [e];
        }
      }
      assert Listed(log)[..|order|] == Listed(log);
    }
  }

  lemma {:induction false} IdsBounded(log: Log, bound: nat)
    requires forall i :: 0 <= i < |log| ==> log[i].id < bound
    ensures bound !in Ids(log)
  {
    if log != [] {
      IdsBounded(log[..|log| - 1], bound);
    }
  }

  function Matching(entries: seq<Entry>, filter: Option<GapStatus>): seq<Entry> {
    if entries == [] then []
    else
      var e := entries[|entries| - 1];
      Matching(entries[..|entries| - 1], filter) + if filter.None? || e.status == filter.value then [e] else []
  }

  lemma MatchingStep(entries: seq<Entry>, i: nat, filter: Option<GapStatus>)
    requires i < |entries|
    ensures Matching(entries[..i + 1], filter)
            == Matching(entries[..i], filter)
               + if filter.None? || entries[i].status == filter.value then [entries[i]] else []
  {
    assert entries[..i + 1][..i] == entries[..i];
  }

  lemma {:induction false} MatchingMembers(entries: seq<Entry>, filter: Option<GapStatus>)
    ensures forall e :: e in Matching(entries, filter) <==> e in entries && (filter.None? || e.status == filter.value)
  {
    if entries != [] {
      MatchingMembers(entries[..|entries| - 1], filter);
      assert entries == entries[..|entries| - 1] + [entries[|entries| - 1]];
    }
  }

  /** What `list_gaps` answers: the gaps whose last recorded state has the wanted status, each once. */
  lemma FilteredListing(log: Log, filter: Option<GapStatus>, e: Entry)
    ensures e in Matching(Listed(log), filter) <==>
              Latest(log, e.id) == Some(e) && (filter.None? || e.status == filter.value)
  {
    ListedExactly(log, e);
    MatchingMembers(Listed(log), filter);
  }
}
