/** Which manifest row decides a path, and exactly when that is the latest one. */
module CatalogPrecedence {
  import opened Common
  import opened Catalog
  import opened CatalogResolver

  // ---------------------------------------------------------------- order of the cumulative rows

  /** The index at which a generation key first publishes; the length of the log if it never does. */
  function FirstAppears(log: Log, k: GenerationKey): nat {
    if log == [] then 0
    else
      var earlier := FirstAppears(log[..|log| - 1], k);
      if earlier < |log| - 1 || PublishesCumulative(log, |log| - 1, k) then earlier else |log|
  }

  lemma {:induction false} FirstAppearsExactly(log: Log, k: GenerationKey)
    ensures FirstAppears(log, k) <= |log|
    ensures FirstAppears(log, k) < |log| ==> PublishesCumulative(log, FirstAppears(log, k), k)
    ensures forall i :: 0 <= i < FirstAppears(log, k) ==> !PublishesCumulative(log, i, k)
  {
    if log != [] {
      var prefix := log[..|log| - 1];
      FirstAppearsExactly(prefix, k);
      forall i | 0 <= i < |prefix|
        ensures PublishesCumulative(log, i, k) <==> PublishesCumulative(prefix, i, k)
      {
        assert prefix[i] == log[i];
      }
    }
  }

  lemma FirstAppearsAppend(log: Log, r: Row, k: GenerationKey)
    ensures FirstAppears(log, k) <= |log|
    ensures FirstAppears(log, k) < |log| ==> FirstAppears(log + [r], k) == FirstAppears(log, k)
    ensures FirstAppears(log, k) == |log| && r.action == Publish && Cumulative(r.cls) && KeyOf(r) == k ==>
              FirstAppears(log + [r], k) == |log|
  {
    assert (log + [r])[..|log|] == log;
    FirstAppearsExactly(log, k);
  }

  /** The keys of an insertion-ordered dictionary, in order. */
  function KeysOf(g: Generations): seq<GenerationKey> {
    seq(|g|, i requires 0 <= i < |g| => g[i].0)
  }

  lemma {:induction false} PutKeys(g: Generations, k: GenerationKey, r: Row)
    ensures KeysOf(Put(g, k, r)) == if k in KeysOf(g) then KeysOf(g) else KeysOf(g) + [k]
  {
    if g == [] {
      assert KeysOf([(k, r)]) == [k];
    } else {
      assert KeysOf(g) == [g[0].0] + KeysOf(g[1..]);
      if g[0].0 == k {
        assert KeysOf(Put(g, k, r)) == KeysOf(g);
      } else {
        PutKeys(g[1..], k, r);
        assert KeysOf(Put(g, k, r)) == [g[0].0] + KeysOf(Put(g[1..], k, r));
      }
    }
  }

  /** The keys are those seen in the log, in order of first appearance. */
  ghost predicate InOrder(keys: seq<GenerationKey>, log: Log) {
    && (forall k :: k in keys <==> FirstAppears(log, k) < |log|)
    && (forall a, b :: 0 <= a < b < |keys| ==> FirstAppears(log, keys[a]) < FirstAppears(log, keys[b]))
  }

  lemma InOrderStays(keys: seq<GenerationKey>, log: Log, r: Row)
    requires InOrder(keys, log)
    requires r.action == Publish && Cumulative(r.cls) ==> KeyOf(r) in keys
    ensures InOrder(keys, log + [r])
  {
    forall k
      ensures k in keys <==> FirstAppears(log + [r], k) < |log| + 1
    {
      FirstAppearsAppend(log, r, k);
      FirstAppearsExactly(log + [r], k);
    }
    forall a, b | 0 <= a < b < |keys|
      ensures FirstAppears(log + [r], keys[a]) < FirstAppears(log + [r], keys[b])
    {
      FirstAppearsAppend(log, r, keys[a]);
      FirstAppearsAppend(log, r, keys[b]);
      assert keys[a] in keys && keys[b] in keys;
    }
  }

  lemma InOrderGrows(keys: seq<GenerationKey>, log: Log, r: Row)
    requires InOrder(keys, log) && r.action == Publish && Cumulative(r.cls) && KeyOf(r) !in keys
    ensures InOrder(keys + [KeyOf(r)], log + [r])
  {
    var longer := keys + [KeyOf(r)];
    forall k
      ensures k in longer <==> FirstAppears(log + [r], k) < |log| + 1
    {
      FirstAppearsAppend(log, r, k);
      FirstAppearsExactly(log + [r], k);
    }
    forall a, b | 0 <= a < b < |longer|
      ensures FirstAppears(log + [r], longer[a]) < FirstAppears(log + [r], longer[b])
    {
      FirstAppearsAppend(log, r, longer[a]);
      FirstAppearsAppend(log, r, longer[b]);
      assert longer[a] == keys[a] && keys[a] in keys;
      assert b < |keys| ==> longer[b] == keys[b] && keys[b] in keys;
    }
  }

  /** The selected cumulative rows stand in order of first appearance of their keys. */
  lemma {:induction false} CumulativeInOrder(log: Log)
    ensures InOrder(KeysOf(LatestCumulative(log)), log)
  {
    if log != [] {
      var prefix, r := log[..|log| - 1], log[|log| - 1];
      assert log == prefix + [r];
      CumulativeInOrder(prefix);
      var keys := KeysOf(LatestCumulative(prefix));
      if r.action == Publish && Cumulative(r.cls) {
        PutKeys(LatestCumulative(prefix), KeyOf(r), r);
        if KeyOf(r) in keys {
          InOrderStays(keys, prefix, r);
        } else {
          InOrderGrows(keys, prefix, r);
        }
      } else {
        InOrderStays(keys, prefix, r);
      }
    }
  }

  // ---------------------------------------------------------------- the deciding row

  /** The publication of `ref` a row makes last. */
  function Of(row: Row, ref: string): Option<Publication> {
    LastPublication(PublicationsOf(row), ref)
  }

  predicate Selects(log: Log, i: int, ref: string) {
    0 <= i < |log| && LatestOfKey(log, i) && Publishes(log[i], ref)
  }

  predicate PublishesAdditive(log: Log, i: int, ref: string) {
    0 <= i < |log| && log[i].action == Publish && !Cumulative(log[i].cls) && Publishes(log[i], ref)
  }

  /**
   Row `w` decides the path: the selected cumulative row whose key appeared last among those that publish it, or,
   when no selected cumulative row does, the additive row written last.
   */
  ghost predicate Decides(log: Log, w: int, ref: string) {
    if 0 <= w < |log| && Cumulative(log[w].cls) then
      && Selects(log, w, ref)
      && forall j :: Selects(log, j, ref) && j != w ==>
           FirstAppears(log, KeyOf(log[j])) < FirstAppears(log, KeyOf(log[w]))
    else
      && PublishesAdditive(log, w, ref)
      && (forall j :: !Selects(log, j, ref))
      && forall j :: j > w ==> !PublishesAdditive(log, j, ref)
  }

  lemma {:induction false} OfSome(pubs: seq<Publication>, ref: string)
    ensures LastPublication(pubs, ref).Some? <==> exists i :: 0 <= i < |pubs| && pubs[i].ref == ref
    ensures LastPublication(pubs, ref).Some? ==> LastPublication(pubs, ref).value in pubs
  {
    if pubs != [] {
      OfSome(pubs[..|pubs| - 1], ref);
      assert pubs == pubs[..|pubs| - 1] + [pubs[|pubs| - 1]];
    }
  }

  lemma OfRow(row: Row, ref: string)
    ensures Of(row, ref).Some? <==> Publishes(row, ref)
    ensures Of(row, ref).Some? ==> Of(row, ref).value.row == row
  {
    OfSome(PublicationsOf(row), ref);
  }

  /** The last row that publishes the path decides among rows. */
  lemma {:induction false} LastRowDecides(rows: seq<Row>, ref: string, m: nat)
    requires m < |rows| && Publishes(rows[m], ref)
    requires forall j :: m < j < |rows| ==> !Publishes(rows[j], ref)
    ensures LastPublication(Publications(rows), ref) == Of(rows[m], ref)
    ensures Of(rows[m], ref).Some?
    decreases |rows|
  {
    var prefix, last := rows[..|rows| - 1], rows[|rows| - 1];
    assert rows == prefix + [last];
    LastOfAppended(prefix, last, ref);
    OfRow(last, ref);
    OfRow(rows[m], ref);
    if m < |prefix| {
      LastRowDecides(prefix, ref, m);
    }
  }

  lemma {:induction false} LastPublisher(rows: seq<Row>, ref: string) returns (m: nat)
    requires exists j :: 0 <= j < |rows| && Publishes(rows[j], ref)
    ensures m < |rows| && Publishes(rows[m], ref) && forall j :: m < j < |rows| ==> !Publishes(rows[j], ref)
  {
    m := |rows| - 1;
    if !Publishes(rows[m], ref) {
      var prefix := rows[..m];
      var j :| 0 <= j < |rows| && Publishes(rows[j], ref);
      assert prefix[j] == rows[j];
      m := LastPublisher(prefix, ref);
    }
  }

  /** The selected cumulative rows, and what the two halves of the selection say about the winner. */
  function CumulativeRows(log: Log): seq<Row> {
    Values(LatestCumulative(log))
  }

  lemma WinnerSplits(log: Log, ref: string)
    ensures Winner(log, ref) == if LastPublication(Publications(CumulativeRows(log)), ref).Some?
                                then LastPublication(Publications(CumulativeRows(log)), ref)
                                else LastPublication(Publications(Additive(log)), ref)
  {
    PublicationsConcat(Additive(log), CumulativeRows(log));
    LastOfConcat(Publications(Additive(log)), Publications(CumulativeRows(log)), ref);
  }

  /** The log index of a selected cumulative row. */
  lemma IndexOfSelected(log: Log, m: nat) returns (i: nat)
    requires m < |LatestCumulative(log)|
    ensures i < |log| && LatestOfKey(log, i) && log[i] == CumulativeRows(log)[m]
    ensures KeysOf(LatestCumulative(log))[m] == KeyOf(log[i])
  {
    LatestCumulativeExactly(log);
    assert LatestCumulative(log)[m] in LatestCumulative(log);
    var k :| IsLatest(log, k, LatestCumulative(log)[m]);
    i := k;
  }

  /** The position of a latest cumulative row among the selected ones. */
  lemma PositionOfLatest(log: Log, i: nat) returns (m: nat)
    requires i < |log| && LatestOfKey(log, i)
    ensures m < |LatestCumulative(log)| && CumulativeRows(log)[m] == log[i]
    ensures KeysOf(LatestCumulative(log))[m] == KeyOf(log[i])
  {
    LatestCumulativeExactly(log);
    assert IsLatest(log, i, (KeyOf(log[i]), log[i]));
    assert (KeyOf(log[i]), log[i]) in LatestCumulative(log);
    var k :| 0 <= k < |LatestCumulative(log)| && LatestCumulative(log)[k] == (KeyOf(log[i]), log[i]);
    m := k;
  }

  lemma SameKeySameRow(log: Log, i: nat, j: nat)
    requires i < |log| && j < |log| && LatestOfKey(log, i) && LatestOfKey(log, j) && KeyOf(log[i]) == KeyOf(log[j])
    ensures i == j
  {
    assert PublishesCumulative(log, i, KeyOf(log[j])) && PublishesCumulative(log, j, KeyOf(log[i]));
  }

  /** Among the selected cumulative rows that publish the path, the one with the key seen last stands last. */
  lemma SelectedDecides(log: Log, ref: string) returns (w: nat)
    requires exists j :: Selects(log, j, ref)
    ensures w < |log| && Decides(log, w, ref) && Cumulative(log[w].cls)
    ensures Winner(log, ref) == Of(log[w], ref)
  {
    var rows := CumulativeRows(log);
    var c :| Selects(log, c, ref);
    var at := PositionOfLatest(log, c);
    assert Publishes(rows[at], ref);
    var m := LastPublisher(rows, ref);
    w := IndexOfSelected(log, m);
    LastRowDecides(rows, ref, m);
    WinnerSplits(log, ref);
    forall j | Selects(log, j, ref) && j != w
      ensures FirstAppears(log, KeyOf(log[j])) < FirstAppears(log, KeyOf(log[w]))
    {
      SelectedStandsEarlier(log, ref, m, w, j);
    }
  }

  lemma SelectedStandsEarlier(log: Log, ref: string, m: nat, w: nat, j: int)
    requires m < |LatestCumulative(log)| && w < |log| && LatestOfKey(log, w)
    requires KeysOf(LatestCumulative(log))[m] == KeyOf(log[w])
    requires forall k :: m < k < |CumulativeRows(log)| ==> !Publishes(CumulativeRows(log)[k], ref)
    requires Selects(log, j, ref) && j != w
    ensures FirstAppears(log, KeyOf(log[j])) < FirstAppears(log, KeyOf(log[w]))
  {
    var q := PositionOfLatest(log, j);
    if q == m {
      SameKeySameRow(log, j, w);
    }
    CumulativeInOrder(log);
  }

  lemma NoneSelected(log: Log, ref: string)
    requires forall j :: !Selects(log, j, ref)
    ensures Winner(log, ref) == LastPublication(Publications(Additive(log)), ref)
  {
    var rows := CumulativeRows(log);
    forall r | r in rows
      ensures !Publishes(r, ref)
    {
      var m :| 0 <= m < |rows| && rows[m] == r;
      var i := IndexOfSelected(log, m);
      assert !Selects(log, i, ref);
    }
    NoneInRows(rows, ref);
    WinnerSplits(log, ref);
  }

  /** `w` is the additive row written last among those that publish the path. */
  ghost predicate LastAdditive(log: Log, w: int, ref: string) {
    PublishesAdditive(log, w, ref) && forall j :: j > w ==> !PublishesAdditive(log, j, ref)
  }

  lemma AdditiveLast(log: Log, r: Row, ref: string)
    ensures LastPublication(Publications(Additive(log + [r])), ref)
            == if r.action == Publish && !Cumulative(r.cls) && Publishes(r, ref) then Of(r, ref)
               else LastPublication(Publications(Additive(log)), ref)
  {
    OfRow(r, ref);
    if r.action == Publish && !Cumulative(r.cls) {
      LastOfAppended(Additive(log), r, ref);
    } else {
      assert Additive(log) + [] == Additive(log);
    }
  }

  lemma SamePublisher(log: Log, r: Row, ref: string, j: int)
    requires j != |log|
    ensures PublishesAdditive(log + [r], j, ref) <==> PublishesAdditive(log, j, ref)
  {
    assert 0 <= j < |log| ==> (log + [r])[j] == log[j];
  }

  lemma {:induction false} LastAdditiveDecides(log: Log, w: nat, ref: string)
    requires w < |log| && LastAdditive(log, w, ref)
    ensures LastPublication(Publications(Additive(log)), ref) == Of(log[w], ref)
    decreases |log|
  {
    var prefix, r := log[..|log| - 1], log[|log| - 1];
    assert log == prefix + [r];
    AdditiveLast(prefix, r, ref);
    if w < |prefix| {
      assert !PublishesAdditive(log, |prefix|, ref);
      forall j
        ensures j != |prefix| ==> (PublishesAdditive(log, j, ref) <==> PublishesAdditive(prefix, j, ref))
      {
        if j != |prefix| {
          SamePublisher(prefix, r, ref, j);
        }
      }
      LastAdditiveDecides(prefix, w, ref);
    }
  }

  lemma {:induction false} FindLastAdditive(log: Log, ref: string) returns (w: nat)
    requires LastPublication(Publications(Additive(log)), ref).Some?
    ensures w < |log| && LastAdditive(log, w, ref)
    decreases |log|
  {
    var prefix, r := log[..|log| - 1], log[|log| - 1];
    assert log == prefix + [r];
    AdditiveLast(prefix, r, ref);
    w := |prefix|;
    if !PublishesAdditive(log, w, ref) {
      w := FindLastAdditive(prefix, ref);
      forall j
        ensures j != |prefix| ==> (PublishesAdditive(log, j, ref) <==> PublishesAdditive(prefix, j, ref))
      {
        if j != |prefix| {
          SamePublisher(prefix, r, ref, j);
        }
      }
    }
  }

  // ---------------------------------------------------------------- main results

  /** At most one row decides. */
  lemma OneDecides(log: Log, v: int, w: int, ref: string)
    requires Decides(log, v, ref) && Decides(log, w, ref)
    ensures v == w
  {
  }

  /** A path that anything selected publishes has a deciding row, and the winner is what that row publishes. */
  lemma WinnerDecides(log: Log, ref: string) returns (w: nat)
    requires Winner(log, ref).Some?
    ensures w < |log| && Decides(log, w, ref) && Winner(log, ref) == Of(log[w], ref)
  {
    if exists j :: Selects(log, j, ref) {
      w := SelectedDecides(log, ref);
    } else {
      NoneSelected(log, ref);
      w := FindLastAdditive(log, ref);
      LastAdditiveDecides(log, w, ref);
    }
  }

  lemma DecidingPublishes(log: Log, w: nat, ref: string)
    requires w < |log| && Decides(log, w, ref)
    ensures Winner(log, ref).Some?
  {
    OfRow(log[w], ref);
    if Cumulative(log[w].cls) {
      var v := SelectedDecides(log, ref);
      OfRow(log[v], ref);
    } else {
      NoneSelected(log, ref);
      LastAdditiveDecides(log, w, ref);
    }
  }

  /** Main result: the winner of a path is what the deciding row publishes, and nothing without one. */
  lemma WinnerExactly(log: Log, w: nat, ref: string)
    requires w < |log|
    ensures Decides(log, w, ref) ==> Winner(log, ref) == Of(log[w], ref)
    ensures Winner(log, ref).None? <==> forall v :: !Decides(log, v, ref)
  {
    if Winner(log, ref).Some? {
      var v := WinnerDecides(log, ref);
      if Decides(log, w, ref) {
        OneDecides(log, v, w, ref);
      }
    }
    if v :| Decides(log, v, ref) {
      DecidingPublishes(log, v, ref);
    }
  }

  /** `i` is the last publish row of the log, of any dataset, that publishes the path. */
  ghost predicate LatestRecord(log: Log, i: int, ref: string) {
    && 0 <= i < |log| && log[i].action == Publish && Publishes(log[i], ref)
    && forall j :: i < j < |log| && log[j].action == Publish ==> !Publishes(log[j], ref)
  }

  /**
   What a reader of the log checks about the latest record of a path: an additive one wins when no selected
   cumulative row publishes the path, a cumulative one when it is the latest of its key and every other selected
   cumulative row that publishes the path has a key that first appeared earlier.
   */
  ghost predicate Authoritative(log: Log, i: nat, ref: string)
    requires i < |log|
  {
    if Cumulative(log[i].cls) then
      && LatestOfKey(log, i)
      && forall j :: Selects(log, j, ref) && j != i ==>
           FirstAppears(log, KeyOf(log[j])) < FirstAppears(log, KeyOf(log[i]))
    else forall j :: !Selects(log, j, ref)
  }

  /** A row that decides and publishes what the latest record publishes is the latest record. */
  lemma SameRowIsLatest(log: Log, w: nat, i: nat, ref: string)
    requires w < |log| && Decides(log, w, ref) && LatestRecord(log, i, ref) && log[w] == log[i]
    ensures w == i
  {
    assert PublishesCumulative(log, i, KeyOf(log[w])) <==> Cumulative(log[w].cls);
    assert PublishesAdditive(log, i, ref) <==> !Cumulative(log[w].cls);
  }

  /** Main result: the latest record of a path is the winner if and only if it is authoritative in that sense. */
  lemma LatestRecordWinsExactly(log: Log, i: nat, ref: string)
    requires LatestRecord(log, i, ref)
    ensures Winner(log, ref) == Of(log[i], ref) <==> Authoritative(log, i, ref)
  {
    WinnerExactly(log, i, ref);
    if Winner(log, ref) == Of(log[i], ref) {
      OfRow(log[i], ref);
      var w := WinnerDecides(log, ref);
      OfRow(log[w], ref);
      SameRowIsLatest(log, w, i, ref);
    }
  }
}
