/** The hold registry of retention.py: a rewritten list of holds and an append-only log of events about them. */
module RetentionHolds {
  import opened Common
  import opened Strings

  datatype Hold = Hold(id: nat, kind: string, target: string, active: bool)

  datatype Event = Created(id: nat, kind: string, target: string) | Removed(id: nat, kind: string, target: string)

  /** What the event log alone says is held. */
  function Replay(events: seq<Event>): seq<Hold> {
    if events == [] then []
    else
      var holds := Replay(events[..|events| - 1]);
      match events[|events| - 1]
      case Created(id, kind, target) => holds + [Hold(id, kind, target, true)]
      case Removed(id, _, _) => Without(holds, id)
  }

  function Without(holds: seq<Hold>, id: nat): seq<Hold> {
    if holds == [] then []
    else Without(holds[..|holds| - 1], id) + if holds[|holds| - 1].id == id then [] else [holds[|holds| - 1]]
  }

  /** The holds of the list that still apply. */
  function Active(holds: seq<Hold>): seq<Hold> {
    if holds == [] then []
    else Active(holds[..|holds| - 1]) + if holds[|holds| - 1].active then [holds[|holds| - 1]] else []
  }

  /** `is_held` on a file name: some active hold's target occurs in it. */
  predicate Held(holds: seq<Hold>, name: string) {
    exists i :: 0 <= i < |holds| && holds[i].active && HasSubstring(name, holds[i].target)
  }

  predicate DistinctHolds(holds: seq<Hold>) {
    forall i, j :: 0 <= i < j < |holds| ==> holds[i].id != holds[j].id
  }

  lemma {:induction false} WithoutAbsent(holds: seq<Hold>, id: nat)
    requires forall i :: 0 <= i < |holds| ==> holds[i].id != id
    ensures Without(Active(holds), id) == Active(holds)
  {
    if holds != [] {
      WithoutAbsent(holds[..|holds| - 1], id);
      assert Active(holds[..|holds| - 1]) + [] == Active(holds[..|holds| - 1]);
    }
  }

  lemma InactiveAppend(a: seq<Hold>)
    ensures a + [] == a
  {
  }

  lemma DeactivateLast(prefix: seq<Hold>, last: Hold)
    requires DistinctHolds(prefix + [last])
    ensures Active(prefix + [last.(active := false)]) == Without(Active(prefix + [last]), last.id)
  {
    forall k | 0 <= k < |prefix|
      ensures prefix[k].id != last.id
    {
      assert (prefix + [last])[k] == prefix[k] && (prefix + [last])[|prefix|] == last;
    }
    WithoutAbsent(prefix, last.id);
    InactiveAppend(Active(prefix));
  }

  lemma DeactivateEarlier(prefix: seq<Hold>, changed: seq<Hold>, last: Hold, id: nat)
    requires Active(changed) == Without(Active(prefix), id) && last.id != id
    ensures Active(changed + [last]) == Without(Active(prefix + [last]), id)
  {
    InactiveAppend(Active(prefix));
    InactiveAppend(Active(changed));
  }

  /** Deactivating a hold takes exactly it out of the active ones. */
  lemma {:induction false} DeactivateRemoves(holds: seq<Hold>, i: nat)
    requires i < |holds| && DistinctHolds(holds)
    ensures Active(holds[i := holds[i].(active := false)]) == Without(Active(holds), holds[i].id)
    decreases |holds|
  {
    var prefix, last := holds[..|holds| - 1], holds[|holds| - 1];
    assert holds == prefix + [last];
    if i == |holds| - 1 {
      assert holds[i := last.(active := false)] == prefix + [last.(active := false)];
      DeactivateLast(prefix, last);
    } else {
      var changed := prefix[i := holds[i].(active := false)];
      assert holds[i := holds[i].(active := false)] == changed + [last];
      DeactivateRemoves(prefix, i);
      DeactivateEarlier(prefix, changed, last, holds[i].id);
    }
  }

  /** Distinct ids, all handed out already. */
  predicate Minted(holds: seq<Hold>, minted: nat) {
    DistinctHolds(holds) && forall i :: 0 <= i < |holds| ==> holds[i].id < minted
  }

  lemma HoldApplies(list: seq<Hold>, hold: Hold)
    requires hold.active
    ensures Held(list + [hold], hold.target)
  {
    assert OccursAt(hold.target, hold.target, 0);
    assert (list + [hold])[|list|] == hold;
  }

  lemma CreationAudited(list: seq<Hold>, events: seq<Event>, hold: Hold)
    requires hold.active && Active(list) == Replay(events)
    ensures Active(list + [hold]) == Replay(events + [Created(hold.id, hold.kind, hold.target)])
  {
  }

  /** The two control files.  `minted` stands for the uuid generator; `readable` is false when parsing the list
   fails. */
  class HoldRegistry {
    var holds: seq<Hold>
    var events: seq<Event>
    var minted: nat
    var readable: bool

    /** What `list_holds` returns: nothing when the file cannot be parsed. */
    function List(): seq<Hold>
      reads this
    {
      if readable then holds else []
    }

    predicate Valid()
      reads this
    {
      Minted(holds, minted)
    }

    /** The audit trail agrees with the list. */
    predicate Audited()
      reads this
    {
      Active(List()) == Replay(events)
    }

    constructor ()
      ensures Valid() && Audited() && readable && holds == [] && events == [] && minted == 0
    {
      holds, events, minted, readable := [], [], 0, true;
    }

    method AddHold(kind: string, target: string) returns (hold: Hold)
      requires Valid()
      modifies this
      ensures Valid() && readable && hold == Hold(old(minted), kind, target, true)
      ensures holds == old(List()) + [hold]
      ensures events == old(events) + [Created(hold.id, kind, target)]
      ensures old(Audited()) ==> Audited()
      ensures Held(holds, target)
    {
      hold := Hold(minted, kind, target, true);
      if Audited() {
        CreationAudited(List(), events, hold);
      }
      HoldApplies(List(), hold);
      holds := List() + [hold];
      readable := true;
      minted := minted + 1;
      events := events + [Created(hold.id, kind, target)];
    }

    method RemoveHold(id: nat) returns (removed: bool)
      requires Valid()
      modifies this
      ensures Valid() && minted == old(minted)
      ensures removed <==> exists i :: 0 <= i < |old(List())| && old(List())[i].id == id && old(List())[i].active
      ensures !removed ==> holds == old(holds) && events == old(events) && readable == old(readable)
      ensures removed ==> readable && Active(holds) == Without(Active(old(List())), id)
      ensures removed ==> |events| == |old(events)| + 1 && events[..|old(events)|] == old(events)
      ensures removed ==> events[|old(events)|].Removed? && events[|old(events)|].id == id
      ensures old(Audited()) ==> Audited()
    {
      var list := List();
      var i := 0;
      while i < |list| && !(list[i].id == id && list[i].active)
        invariant 0 <= i <= |list|
        invariant forall k :: 0 <= k < i ==> !(list[k].id == id && list[k].active)
      {
        i := i + 1;
      }
      if i == |list| {
        return false;
      }
      var hold := list[i];
      DeactivateRemoves(list, i);
      holds := list[i := hold.(active := false)];
      events := events + [Removed(id, hold.kind, hold.target)];
      removed := true;
    }
  }

  /** A hold added while the list cannot be parsed leaves it alone in the list: the audit trail still agrees only if
      nothing was held before. */
  lemma UnreadableListForgetsHolds(events: seq<Event>, hold: Hold)
    requires hold.active
    ensures Active([] + [hold]) == Replay(events + [Created(hold.id, hold.kind, hold.target)]) <==> Replay(events) == []
  {
    assert |Replay(events) + [hold]| == 1 <==> Replay(events) == [];
  }
}
