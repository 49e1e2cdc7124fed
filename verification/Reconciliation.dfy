/** The classification loop of `reconcile_trade_datasets` (reconciliation.py) against counts of sets. */
module Reconciliation {
  import opened Common
  import opened Strings

  /** The compared columns of a trade, as extracted: absent text is empty, an absent time is 0. */
  datatype Trade = Trade(price: string, quantity: string, side: string, time: int)

  type Trades = map<string, Trade>

  /** `{key(t): t for t in trades}`: the last trade of a key stays. */
  function ByKey(trades: seq<(string, Trade)>): Trades {
    if trades == [] then map[]
    else ByKey(trades[..|trades| - 1])[trades[|trades| - 1].0 := trades[|trades| - 1].1]
  }

  predicate HasKey(trades: seq<(string, Trade)>, k: string) {
    exists i :: 0 <= i < |trades| && trades[i].0 == k
  }

  lemma HasKeyAppend(trades: seq<(string, Trade)>, last: (string, Trade), k: string)
    ensures HasKey(trades, k) || last.0 == k ==> HasKey(trades + [last], k)
  {
    assert (trades + [last])[|trades|] == last;
    if HasKey(trades, k) {
      var i :| 0 <= i < |trades| && trades[i].0 == k;
      assert (trades + [last])[i].0 == k;
    }
  }

  /** Each key maps to the last trade that carries it. */
  lemma {:induction false} ByKeyKeepsLast(trades: seq<(string, Trade)>, i: nat)
    requires i < |trades| && !HasKey(trades[i + 1..], trades[i].0)
    ensures trades[i].0 in ByKey(trades) && ByKey(trades)[trades[i].0] == trades[i].1
    decreases |trades|
  {
    var prefix, last := trades[..|trades| - 1], trades[|trades| - 1];
    if i < |prefix| {
      assert trades[i + 1..] == prefix[i + 1..] + [last];
      HasKeyAppend(prefix[i + 1..], last, trades[i].0);
      ByKeyKeepsLast(prefix, i);
    }
  }

  method IndexByKey(trades: seq<(string, Trade)>) returns (m: Trades)
    ensures m == ByKey(trades)
  {
    m := map[];
    for i := 0 to |trades|
      invariant m == ByKey(trades[..i])
    {
      assert trades[..i + 1][..i] == trades[..i];
      m := m[trades[i].0 := trades[i].1];
    }
    assert trades[..|trades|] == trades;
  }

  datatype Sources = Sources(archive: Trades, ws: Trades, rest: Trades, tolerance: int)

  predicate FieldConflict(a: Trade, w: Trade) {
    a.price != w.price || a.quantity != w.quantity
  }

  predicate SideConflict(a: Trade, w: Trade) {
    a.side != "" && w.side != "" && a.side != w.side
  }

  function Abs(x: int): int {
    if x < 0 then -x else x
  }

  predicate TimeConflict(a: Trade, w: Trade, tolerance: int) {
    a.time > 0 && w.time > 0 && Abs(a.time - w.time) > tolerance
  }

  /** The counters of the loop. */
  datatype Category = Exact | WsMissing | WsExtra | RestMissing | Field | Side | Timestamp

  /** The keys a counter counts, each source taken as a set of keys. */
  function Members(c: Category, s: Sources): set<string> {
    match c
    case WsMissing => s.archive.Keys - s.ws.Keys
    case WsExtra => if s.archive == map[] then {} else s.ws.Keys - s.archive.Keys
    case RestMissing => if s.rest == map[] then {} else s.archive.Keys - s.rest.Keys
    case Field => FieldConflicts(s)
    case Side => SideConflicts(s)
    case Timestamp => TimeConflicts(s)
    case Exact => if s.archive == map[] then s.ws.Keys else s.archive.Keys * s.ws.Keys - Conflicted(s)
  }

  function FieldConflicts(s: Sources): set<string> {
    set k | k in s.archive && k in s.ws && FieldConflict(s.archive[k], s.ws[k])
  }

  function SideConflicts(s: Sources): set<string> {
    set k | k in s.archive && k in s.ws && SideConflict(s.archive[k], s.ws[k])
  }

  function TimeConflicts(s: Sources): set<string> {
    set k | k in s.archive && k in s.ws && TimeConflict(s.archive[k], s.ws[k], s.tolerance)
  }

  function Conflicted(s: Sources): set<string> {
    FieldConflicts(s) + SideConflicts(s) + TimeConflicts(s)
  }

  /** How many of the keys a counter counts. */
  function Tally(keys: seq<string>, c: Category, s: Sources): nat {
    if keys == [] then 0
    else Tally(keys[..|keys| - 1], c, s) + if keys[|keys| - 1] in Members(c, s) then 1 else 0
  }

  predicate DistinctKeys(keys: seq<string>) {
    forall i, j :: 0 <= i < j < |keys| ==> keys[i] != keys[j]
  }

  lemma {:induction false} TallyIsSize(keys: seq<string>, c: Category, s: Sources)
    requires DistinctKeys(keys)
    ensures Tally(keys, c, s) == |set k | k in keys && k in Members(c, s)|
  {
    if keys != [] {
      var prefix, last := keys[..|keys| - 1], keys[|keys| - 1];
      TallyIsSize(prefix, c, s);
      assert keys == prefix + [last];
      var before, after := set k | k in prefix && k in Members(c, s), set k | k in keys && k in Members(c, s);
      assert after == before + if last in Members(c, s) then {last} else {};
      assert last !in before;
    }
  }

  datatype Discrepancy = Discrepancy(key: string, category: Category)

  function When(b: bool, d: Discrepancy): seq<Discrepancy> {
    if b then [d] else []
  }

  /** What one key adds to the discrepancy list. */
  function DetailsOf(k: string, s: Sources): seq<Discrepancy> {
    When(k in Members(WsMissing, s), Discrepancy(k, WsMissing))
    + When(k in Members(WsExtra, s), Discrepancy(k, WsExtra))
    + When(k in Members(Field, s), Discrepancy(k, Field))
    + When(k in Members(Side, s), Discrepancy(k, Side))
    + When(k in Members(Timestamp, s), Discrepancy(k, Timestamp))
  }

  function Details(keys: seq<string>, s: Sources): seq<Discrepancy> {
    if keys == [] then [] else Details(keys[..|keys| - 1], s) + DetailsOf(keys[|keys| - 1], s)
  }

  /** The counters as the loop leaves them. */
  datatype Counts = Counts(exact: nat, wsMissing: nat, wsExtra: nat, restMissing: nat, field: nat, side: nat,
                           timestamp: nat)

  ghost predicate Counted(n: Counts, keys: seq<string>, s: Sources) {
    && n.exact == Tally(keys, Exact, s)
    && n.wsMissing == Tally(keys, WsMissing, s)
    && n.wsExtra == Tally(keys, WsExtra, s)
    && n.restMissing == Tally(keys, RestMissing, s)
    && n.field == Tally(keys, Field, s)
    && n.side == Tally(keys, Side, s)
    && n.timestamp == Tally(keys, Timestamp, s)
  }

  function AllKeys(s: Sources): set<string> {
    s.archive.Keys + s.ws.Keys + s.rest.Keys
  }

  predicate CoverageProven(n: Counts) {
    n.wsMissing == 0 && n.field == 0 && n.side == 0 && n.timestamp == 0
  }

  function One(b: bool): nat {
    if b then 1 else 0
  }

  /** The counters once `k` is counted too. */
  function Bumped(n: Counts, k: string, s: Sources): Counts {
    Counts(n.exact + One(k in Members(Exact, s)), n.wsMissing + One(k in Members(WsMissing, s)),
           n.wsExtra + One(k in Members(WsExtra, s)), n.restMissing + One(k in Members(RestMissing, s)),
           n.field + One(k in Members(Field, s)), n.side + One(k in Members(Side, s)),
           n.timestamp + One(k in Members(Timestamp, s)))
  }

  /** A key both sides have. */
  method Compare(k: string, s: Sources, n0: Counts) returns (n: Counts, details: seq<Discrepancy>)
    requires k in s.archive && k in s.ws
    ensures details == DetailsOf(k, s)
    ensures n == Bumped(n0, k, s).(restMissing := n0.restMissing)
  {
    n, details := n0, [];
    var a, w, conflict := s.archive[k], s.ws[k], false;
    if a.price != w.price || a.quantity != w.quantity {
      n := n.(field := n.field + 1);
      conflict := true;
      details := details + [Discrepancy(k, Field)];
    }
    if a.side != "" && w.side != "" && a.side != w.side {
      n := n.(side := n.side + 1);
      conflict := true;
      details := details + [Discrepancy(k, Side)];
    }
    if a.time > 0 && w.time > 0 && Abs(a.time - w.time) > s.tolerance {
      n := n.(timestamp := n.timestamp + 1);
      conflict := true;
      details := details + [Discrepancy(k, Timestamp)];
    }
    if !conflict {
      n := n.(exact := n.exact + 1);
    }
  }

  /** A key one of the two sides lacks. */
  method Unpaired(k: string, s: Sources, n0: Counts) returns (n: Counts, details: seq<Discrepancy>)
    requires !(k in s.archive && k in s.ws)
    ensures details == DetailsOf(k, s)
    ensures n == Bumped(n0, k, s).(restMissing := n0.restMissing)
  {
    n, details := n0, [];
    if k in s.archive {
      n := n.(wsMissing := n.wsMissing + 1);
      details := [Discrepancy(k, WsMissing)];
    } else if k in s.ws && |s.archive| > 0 {
      n := n.(wsExtra := n.wsExtra + 1);
      details := [Discrepancy(k, WsExtra)];
    } else if k in s.ws {
      n := n.(exact := n.exact + 1);
    }
  }

  /** The body of the loop for one key. */
  method Classify(k: string, s: Sources, n0: Counts) returns (n: Counts, details: seq<Discrepancy>)
    ensures details == DetailsOf(k, s)
    ensures n == Bumped(n0, k, s)
  {
    if k in s.archive && k in s.ws {
      n, details := Compare(k, s, n0);
    } else {
      n, details := Unpaired(k, s, n0);
    }
    if k in s.archive && k !in s.rest && |s.rest| > 0 {
      n := n.(restMissing := n.restMissing + 1);
    }
  }

  /** The reconciliation: counters over all keys in order, and the first 50 discrepancies. */
  method Reconcile(s: Sources) returns (n: Counts, proven: bool, recorded: seq<Discrepancy>, ghost keys: seq<string>)
    ensures n == Totals(s) && proven == CoverageProven(n)
    ensures AscendingStrings(keys) && forall k :: k in keys <==> k in AllKeys(s)
    ensures recorded == First50(Details(keys, s))
  {
    var order := SortedStrings(AllKeys(s));
    keys := order;
    var details;
    n, details := Scan(order, s);
    forall c
      ensures Tally(order, c, s) == |Members(c, s)|
    {
      TallyOfAllKeys(order, c, s);
    }
    proven := n.wsMissing == 0 && n.field == 0 && n.side == 0 && n.timestamp == 0;
    recorded := First50(details);
  }

  lemma CountedAppend(n: Counts, keys: seq<string>, k: string, s: Sources)
    requires Counted(n, keys, s)
    ensures Counted(Bumped(n, k, s), keys + [k], s)
    ensures Details(keys + [k], s) == Details(keys, s) + DetailsOf(k, s)
  {
    assert (keys + [k])[..|keys|] == keys;
  }

  /** The loop over the sorted keys. */
  method Scan(order: seq<string>, s: Sources) returns (n: Counts, details: seq<Discrepancy>)
    ensures Counted(n, order, s) && details == Details(order, s)
  {
    n, details := Counts(0, 0, 0, 0, 0, 0, 0), [];
    for i := 0 to |order|
      invariant Counted(n, order[..i], s) && details == Details(order[..i], s)
    {
      assert order[..i + 1] == order[..i] + [order[i]];
      CountedAppend(n, order[..i], order[i], s);
      var next, found := Classify(order[i], s, n);
      n, details := next, details + found;
    }
    assert order[..|order|] == order;
  }

  /** The whole function on its three lists of keyed trades. */
  method ReconcileTradeDatasets(archive: seq<(string, Trade)>, ws: seq<(string, Trade)>, rest: seq<(string, Trade)>,
                                tolerance: int)
      returns (n: Counts, proven: bool, recorded: seq<Discrepancy>, ghost keys: seq<string>)
    ensures n == Totals(Sources(ByKey(archive), ByKey(ws), ByKey(rest), tolerance)) && proven == CoverageProven(n)
    ensures var s := Sources(ByKey(archive), ByKey(ws), ByKey(rest), tolerance);
            && AscendingStrings(keys) && (forall k :: k in keys <==> k in AllKeys(s))
            && recorded == First50(Details(keys, s))
  {
    var archiveMap := IndexByKey(archive);
    var wsMap := IndexByKey(ws);
    var restMap := IndexByKey(rest);
    n, proven, recorded, keys := Reconcile(Sources(archiveMap, wsMap, restMap, tolerance));
  }

  function First50(details: seq<Discrepancy>): seq<Discrepancy> {
    if |details| <= 50 then details else details[..50]
  }

  lemma MembersAreKeys(c: Category, s: Sources)
    ensures Members(c, s) <= AllKeys(s)
  {
  }

  lemma TallyOfAllKeys(keys: seq<string>, c: Category, s: Sources)
    requires AscendingStrings(keys) && forall k :: k in keys <==> k in AllKeys(s)
    ensures Tally(keys, c, s) == |Members(c, s)|
  {
    forall i, j | 0 <= i < j < |keys|
      ensures keys[i] != keys[j]
    {
      NotLessThanItself(keys[i]);
    }
    TallyIsSize(keys, c, s);
    MembersAreKeys(c, s);
    assert Members(c, s) == set k | k in keys && k in Members(c, s);
  }

  // ---------------------------------------------------------------- what the counters say

  lemma SizeOfSubset(a: set<string>, b: set<string>)
    requires a <= b
    ensures |a| <= |b| && (|a| == |b| ==> a == b)
  {
    assert b == a + (b - a);
    assert |b| == |a| + |b - a|;
  }

  function Size(c: Category, s: Sources): nat {
    |Members(c, s)|
  }

  /** Conservation: every archive trade is missing, exact or conflicted, and each conflict is counted one to three
   times. */
  lemma ArchiveIsAccountedFor(s: Sources)
    requires s.archive != map[]
    ensures |s.archive| == Size(WsMissing, s) + Size(Exact, s) + |Conflicted(s)|
    ensures |Conflicted(s)| <= Size(Field, s) + Size(Side, s) + Size(Timestamp, s) <= 3 * |Conflicted(s)|
  {
    ArchiveParts(s);
    ThreeParts(Members(WsMissing, s), Members(Exact, s), Conflicted(s), s.archive.Keys);
    UnionOfThree(FieldConflicts(s), SideConflicts(s), TimeConflicts(s));
  }

  lemma ArchiveParts(s: Sources)
    requires s.archive != map[]
    ensures s.archive.Keys == Members(WsMissing, s) + Members(Exact, s) + Conflicted(s)
    ensures Members(WsMissing, s) !! Members(Exact, s) && Members(WsMissing, s) !! Conflicted(s)
    ensures Members(Exact, s) !! Conflicted(s)
  {
  }

  lemma ThreeParts(a: set<string>, b: set<string>, c: set<string>, all: set<string>)
    requires all == a + b + c && a !! b && a !! c && b !! c
    ensures |all| == |a| + |b| + |c|
  {
  }

  lemma UnionOfThree(a: set<string>, b: set<string>, c: set<string>)
    ensures |a + b + c| <= |a| + |b| + |c| <= 3 * |a + b + c|
  {
    SizeOfSubset(a, a + b + c);
    SizeOfSubset(b, a + b + c);
    SizeOfSubset(c, a + b + c);
  }

  /** The counts of a whole reconciliation. */
  function Totals(s: Sources): Counts {
    Counts(Size(Exact, s), Size(WsMissing, s), Size(WsExtra, s), Size(RestMissing, s),
           Size(Field, s), Size(Side, s), Size(Timestamp, s))
  }

  /** Coverage is proven exactly when every archive trade was matched exactly. */
  lemma ProvenIffAllExact(s: Sources)
    requires s.archive != map[]
    ensures CoverageProven(Totals(s)) <==> Size(Exact, s) == |s.archive|
    ensures CoverageProven(Totals(s)) <==>
              forall k :: k in s.archive ==> k in s.ws && !FieldConflict(s.archive[k], s.ws[k])
                                             && !SideConflict(s.archive[k], s.ws[k])
                                             && !TimeConflict(s.archive[k], s.ws[k], s.tolerance)
  {
    ArchiveIsAccountedFor(s);
    if CoverageProven(Totals(s)) {
      assert Members(WsMissing, s) == {} && Members(Field, s) == {} && Members(Side, s) == {}
          && Members(Timestamp, s) == {};
      forall k | k in s.archive
        ensures k in s.ws && !FieldConflict(s.archive[k], s.ws[k]) && !SideConflict(s.archive[k], s.ws[k])
                && !TimeConflict(s.archive[k], s.ws[k], s.tolerance)
      {
        assert k !in Members(WsMissing, s) && k !in Members(Field, s) && k !in Members(Side, s)
            && k !in Members(Timestamp, s);
      }
    }
  }

  /** With no archive the check is vacuous: every websocket trade counts as exact and coverage as proven. */
  lemma EmptyArchiveProvesNothing(s: Sources)
    requires s.archive == map[]
    ensures CoverageProven(Totals(s)) && Size(Exact, s) == |s.ws| && Size(WsExtra, s) == 0
  {
    assert Members(WsMissing, s) == {} && Members(Field, s) == {} && Members(Side, s) == {}
        && Members(Timestamp, s) == {};
  }

  function Swapped(s: Sources): Sources {
    s.(archive := s.ws, ws := s.archive)
  }

  /** Main result: which trades both sides have agree, column by column; an absent side or time is not compared. */
  lemma ConflictsExactly(s: Sources, k: string)
    requires k in s.archive && k in s.ws
    ensures var a, w := s.archive[k], s.ws[k];
            && (k in Members(Field, s) <==> !(a.price == w.price && a.quantity == w.quantity))
            && (k in Members(Side, s) <==> !(a.side == w.side || a.side == "" || w.side == ""))
            && (k in Members(Timestamp, s) <==>
                  !(a.time <= 0 || w.time <= 0 || (a.time - w.time <= s.tolerance && w.time - a.time <= s.tolerance)))
            && (k in Members(Exact, s) <==>
                  k !in Members(Field, s) && k !in Members(Side, s) && k !in Members(Timestamp, s))
            && k !in Members(WsMissing, s) && k !in Members(WsExtra, s)
  {
  }

  /** A key one of the two sides lacks is missing, or extra when there is an archive to compare with. */
  lemma UnpairedExactly(s: Sources, k: string)
    requires !(k in s.archive && k in s.ws)
    ensures k in Members(WsMissing, s) <==> k in s.archive
    ensures k in Members(WsExtra, s) <==> k in s.ws && s.archive != map[]
    ensures k in Members(Exact, s) <==> k in s.ws && s.archive == map[]
    ensures k !in Members(Field, s) && k !in Members(Side, s) && k !in Members(Timestamp, s)
  {
  }

  /** A key is missing on the REST side when that side answered at all. */
  lemma RestMissingExactly(s: Sources, k: string)
    ensures k in Members(RestMissing, s) <==> k in s.archive && k !in s.rest && s.rest != map[]
  {
  }

  /** Swapping two non-empty sides swaps missing with extra and keeps every match and mismatch. */
  lemma SwapSymmetric(s: Sources)
    requires s.archive != map[] && s.ws != map[]
    ensures Members(WsMissing, Swapped(s)) == Members(WsExtra, s)
    ensures Members(WsExtra, Swapped(s)) == Members(WsMissing, s)
    ensures Members(Field, Swapped(s)) == Members(Field, s)
    ensures Members(Side, Swapped(s)) == Members(Side, s)
    ensures Members(Timestamp, Swapped(s)) == Members(Timestamp, s)
    ensures Members(Exact, Swapped(s)) == Members(Exact, s)
  {
  }

  /** The two comparisons see the same archive, and the same websocket trade for each of its keys. */
  predicate SameForArchive(s: Sources, t: Sources) {
    && s.archive == t.archive && s.tolerance == t.tolerance
    && forall k :: k in s.archive ==> (k in s.ws <==> k in t.ws) && (k in s.ws ==> s.ws[k] == t.ws[k])
  }

  lemma SameConflicts(s: Sources, t: Sources)
    requires SameForArchive(s, t)
    ensures FieldConflicts(s) == FieldConflicts(t)
    ensures SideConflicts(s) == SideConflicts(t)
    ensures TimeConflicts(s) == TimeConflicts(t)
  {
  }

  lemma SamePairs(s: Sources, t: Sources)
    requires SameForArchive(s, t)
    ensures Members(WsMissing, s) == Members(WsMissing, t)
    ensures s.archive.Keys * s.ws.Keys == t.archive.Keys * t.ws.Keys
  {
  }

  /** Trades only the websocket or the REST side has do not change the verdict on a non-empty archive. */
  lemma OnlyTheArchiveDecides(s: Sources, t: Sources)
    requires SameForArchive(s, t) && s.archive != map[]
    ensures CoverageProven(Totals(s)) <==> CoverageProven(Totals(t))
    ensures Members(Exact, s) == Members(Exact, t)
  {
    SameConflicts(s, t);
    SamePairs(s, t);
  }

  predicate Listable(d: Discrepancy, s: Sources) {
    d.category != Exact && d.category != RestMissing && d.key in Members(d.category, s)
  }

  lemma DetailsOfCount(k: string, s: Sources)
    ensures |DetailsOf(k, s)|
        == One(k in Members(WsMissing, s)) + One(k in Members(WsExtra, s)) + One(k in Members(Field, s))
                                 + One(k in Members(Side, s)) + One(k in Members(Timestamp, s))
  {
  }

  lemma ConcatFive<T>(a: seq<T>, b: seq<T>, c: seq<T>, d: seq<T>, e: seq<T>, x: T)
    ensures x in a + b + c + d + e <==> x in a || x in b || x in c || x in d || x in e
  {
  }

  lemma DetailsOfMember(k: string, s: Sources, d: Discrepancy)
    ensures d in DetailsOf(k, s) <==> d.key == k && Listable(d, s)
  {
    ConcatFive(When(k in Members(WsMissing, s), Discrepancy(k, WsMissing)),
               When(k in Members(WsExtra, s), Discrepancy(k, WsExtra)),
               When(k in Members(Field, s), Discrepancy(k, Field)),
               When(k in Members(Side, s), Discrepancy(k, Side)),
               When(k in Members(Timestamp, s), Discrepancy(k, Timestamp)), d);
  }

  lemma DetailsOfExactly(k: string, s: Sources)
    ensures forall d :: d in DetailsOf(k, s) <==> d.key == k && Listable(d, s)
  {
    forall d
      ensures d in DetailsOf(k, s) <==> d.key == k && Listable(d, s)
    {
      DetailsOfMember(k, s, d);
    }
  }

  /** The list names every missing, extra and conflicting key, once per category. */
  lemma {:induction false} DetailsExactly(keys: seq<string>, s: Sources)
    ensures |Details(keys, s)| == Tally(keys, WsMissing, s) + Tally(keys, WsExtra, s) + Tally(keys, Field, s)
                                  + Tally(keys, Side, s) + Tally(keys, Timestamp, s)
    ensures forall d :: d in Details(keys, s) <==>
              d.key in keys && Listable(d, s)
  {
    if keys != [] {
      var prefix, last := keys[..|keys| - 1], keys[|keys| - 1];
      assert keys == prefix + [last];
      DetailsExactly(prefix, s);
      DetailsOfExactly(last, s);
      DetailsOfCount(last, s);
    }
  }
}
