/** The group or meter table as lib/extend-table.c keeps it: a bitmap and two
  * maps that every operation changes in place. */
module ExtendTableImpl {
  import opened Bits
  import opened ExtendTables

  class ExtendTable {
    const bitmap: array<bool>
    ghost var ids: Bits  // the 1-bits of 'bitmap'
    var desired: map<string, Entry>
    var existing: map<string, nat>

    ghost predicate Ready()
      reads this`ids, bitmap
    {
      && bitmap.Length == MAX_ID + 1
      && forall i: nat :: i in ids <==> i < bitmap.Length && bitmap[i]
    }

    /** The table as a value. */
    ghost function View(): (r: Ext)
      reads this
    {
      Ext(ids, desired, existing)
    }

    constructor ()
      ensures Ready() && fresh(bitmap) && View() == EMPTY
    {
      var b := new bool[MAX_ID + 1](i => i == 0);
      bitmap := b;
      ids := {0};
      desired := map[];
      existing := map[];
    }

    /** Lowest free id from 1 on, or MAX_ID + 1. */
    method ScanFree() returns (id: nat)
      requires Ready()
      ensures id == Scan(ids, false, 1, MAX_ID + 1)
    {
      id := 1;
      while id <= MAX_ID && bitmap[id]
        invariant 1 <= id <= MAX_ID + 1
        invariant Scan(ids, false, 1, MAX_ID + 1) == Scan(ids, false, id, MAX_ID + 1)
      {
        id := id + 1;
      }
    }

    method SetBit(id: nat, b: bool)
      requires Ready() && id <= MAX_ID
      modifies bitmap, this`ids
      ensures Ready() && ids == if b then old(ids) + {id} else old(ids) - {id}
    {
      bitmap[id] := b;
      ids := if b then ids + {id} else ids - {id};
    }

    method AssignId(name: string) returns (id: nat)
      requires Ready()
      requires InRange(View())
      modifies this, bitmap
      ensures Ready()
      ensures (View(), id) == Assign(old(View()), name)
    {
      if name in desired {
        id := desired[name].id;
        return;
      }
      id := 0;
      if name in existing {
        id := existing[name];
      }
      var isNew := false;
      if id == 0 {
        id := ScanFree();
        isNew := true;
      }
      if id == MAX_ID + 1 {
        id := ID_INVALID;
        return;
      }
      SetBit(id, true);
      desired := desired[name := Entry(id, isNew)];
    }

    /** Drops the wanted entries, giving back the ids reserved for them. */
    method ClearDesired()
      requires Ready()
      requires InRange(View())
      modifies this, bitmap
      ensures Ready()
      ensures View() == ExtendTables.ClearDesired(old(View()))
    {
      ghost var x := View();
      while desired != map[]
        invariant Ready() && existing == x.existing
        invariant forall n :: n in desired ==> desired[n].id <= MAX_ID
        invariant ids - NewIds(desired) == x.ids - NewIds(x.desired)
        decreases |desired|
      {
        var n :| n in desired;
        var e := desired[n];
        ReleaseNew(ids, desired, n);
        if e.isNew {
          SetBit(e.id, false);
        }
        desired := desired - {n};
      }
    }

    /** Drops the installed entries and releases their ids. */
    method ClearExisting()
      requires Ready()
      requires InRange(View())
      modifies this, bitmap
      ensures Ready()
      ensures View() == ExtendTables.ClearExisting(old(View()))
    {
      ghost var x := View();
      while existing != map[]
        invariant Ready() && desired == x.desired
        invariant forall n :: n in existing ==> existing[n] <= MAX_ID
        invariant ids - ExistingIds(existing) == x.ids - ExistingIds(x.existing)
        decreases |existing|
      {
        var n :| n in existing;
        DropExisting(existing, n);
        SetBit(existing[n], false);
        existing := existing - {n};
      }
    }

    /** Removes one installed entry and releases its id. */
    method Remove(n: string)
      requires Ready()
      requires n in existing && existing[n] <= MAX_ID
      modifies this, bitmap
      ensures Ready()
      ensures View() == Ext(old(ids) - {old(existing)[n]}, old(desired), old(existing) - {n})
    {
      SetBit(existing[n], false);
      existing := existing - {n};
    }

    /** Moves one wanted entry, unless an entry with its id is installed. */
    method MoveEntry(n: string)
      requires n in desired
      modifies this`desired, this`existing
      ensures existing == Install(old(existing), n, old(desired)[n].id) && desired == old(desired) - {n}
    {
      var id := desired[n].id;
      desired := desired - {n};
      if !HasId(existing, id) {
        existing := existing[n := id];
      }
    }

    /** Moves the wanted entries that are not installed over to the installed
      * ones and drops the others. */
    method Move(ghost owner: map<nat, string>)
      requires Ready()
      requires Owned(existing, desired, owner)
      modifies this`desired, this`existing
      ensures Ready()
      ensures desired == map[] && existing == Merge(old(existing), old(desired))
    {
      ghost var merged := Merge(existing, desired);
      while desired != map[]
        invariant Moving(existing, desired, owner, merged)
        decreases |desired|
      {
        var n :| n in desired;
        MoveStep(existing, desired, owner, merged, n);
        MoveEntry(n);
      }
      MovedAll(existing, owner, merged);
    }

    /** The wanted entries that are not installed. */
    method Uninstalled() returns (adds: seq<(nat, string)>)
      requires Valid(View())
      ensures forall id, n :: (id, n) in adds <==> n in desired && n !in existing && id == desired[n].id
      ensures forall i, j :: 0 <= i < j < |adds| ==> adds[i] != adds[j]
    {
      adds := [];
      var todo := desired.Keys;
      while todo != {}
        invariant todo <= desired.Keys
        invariant forall id, n :: (id, n) in adds <==>
                    n in desired && n !in todo && n !in existing && id == desired[n].id
        invariant forall i, j :: 0 <= i < j < |adds| ==> adds[i] != adds[j]
      {
        var n :| n in todo;
        LookupByName(View(), n);
        if !HasId(existing, desired[n].id) {
          adds := adds + [(desired[n].id, n)];
        }
        todo := todo - {n};
      }
    }

    /** Removes the installed entries that are not wanted. */
    method RemoveUnwanted() returns (deletes: seq<nat>)
      requires Ready()
      requires Valid(View())
      modifies this, bitmap
      ensures Ready() && View() == Prune(old(View()))
      ensures forall id :: id in deletes <==> id in IdsOf(old(existing), Unwanted(old(View())))
      ensures forall i, j :: 0 <= i < j < |deletes| ==> deletes[i] != deletes[j]
    {
      ghost var x := View();
      ghost var removed: set<string> := {};
      deletes := [];
      var todo := existing.Keys;
      while todo != {}
        invariant Ready() && desired == x.desired
        invariant Removing(x, removed, todo, existing, ids, deletes)
      {
        var n :| n in todo;
        RemoveStep(x, removed, todo, existing, ids, deletes, n);
        if !WantsId(desired, existing[n]) {
          deletes := deletes + [existing[n]];
          Remove(n);
          removed := removed + {n};
        }
        todo := todo - {n};
      }
      assert removed == Unwanted(x);
    }

    /** The end of a put: removes what is not wanted, then moves what is. */
    method Settle() returns (deletes: seq<nat>)
      requires Ready()
      requires Valid(View())
      modifies this, bitmap
      ensures Ready() && View() == ExtendTables.Settle(old(View()))
      ensures forall id :: id in deletes <==> id in IdsOf(old(existing), Unwanted(old(View())))
      ensures forall i, j :: 0 <= i < j < |deletes| ==> deletes[i] != deletes[j]
    {
      ghost var x := View();
      ghost var owner := ValidOwned(x);
      PruneOwned(x, owner);
      PruneThenMerge(x);
      deletes := RemoveUnwanted();
      Move(owner);
    }
  }

  /** Part of the walk that moves wanted entries: the outcome does not change. */
  ghost predicate Moving(e: map<string, nat>, d: map<string, Entry>, owner: map<nat, string>,
                         merged: map<string, nat>)
  {
    Owned(e, d, owner) && Merge(e, d) == merged
  }

  lemma MoveStep(e: map<string, nat>, d: map<string, Entry>, owner: map<nat, string>, merged: map<string, nat>,
                 n: string)
    requires Moving(e, d, owner, merged) && n in d
    ensures Moving(Install(e, n, d[n].id), d - {n}, owner, merged) && |d - {n}| < |d|
  {
    MoveOne(e, d, n, owner);
  }

  lemma MovedAll(e: map<string, nat>, owner: map<nat, string>, merged: map<string, nat>)
    requires Moving(e, map[], owner, merged)
    ensures e == merged
  {
    assert Merge(e, map[]) == e;
  }

  /** Part of the walk that removes unwanted entries: 'removed' are gone, 'todo'
    * is still to be visited. */
  ghost predicate Removing(x: Ext, removed: set<string>, todo: set<string>, e: map<string, nat>, ids: Bits,
                           deletes: seq<nat>)
  {
    && removed <= Unwanted(x) <= removed + todo && removed !! todo && todo <= x.existing.Keys
    && e == x.existing - removed
    && ids == x.ids - IdsOf(x.existing, removed)
    && (forall id :: id in deletes <==> id in IdsOf(x.existing, removed))
    && (forall i, j :: 0 <= i < j < |deletes| ==> deletes[i] != deletes[j])
  }

  lemma RemoveStep(x: Ext, removed: set<string>, todo: set<string>, e: map<string, nat>, ids: Bits, deletes: seq<nat>,
                   n: string)
    requires Valid(x) && Removing(x, removed, todo, e, ids, deletes) && n in todo
    ensures n in e && e[n] <= MAX_ID
    ensures WantsId(x.desired, e[n]) ==> Removing(x, removed, todo - {n}, e, ids, deletes)
    ensures !WantsId(x.desired, e[n]) ==>
              Removing(x, removed + {n}, todo - {n}, e - {n}, ids - {e[n]}, deletes + [e[n]])
  {
    LookupByName(x, n);
    RemoveOne(x, removed, n);
  }

  lemma RemoveOne(x: Ext, removed: set<string>, n: string)
    requires Valid(x) && removed <= x.existing.Keys && n in x.existing && n !in removed
    ensures IdsOf(x.existing, removed + {n}) == IdsOf(x.existing, removed) + {x.existing[n]}
    ensures x.existing[n] !in IdsOf(x.existing, removed)
    ensures x.existing - (removed + {n}) == x.existing - removed - {n}
  {
    assert x.existing - (removed + {n}) == x.existing - removed - {n};
    forall i | i in IdsOf(x.existing, removed) + {x.existing[n]} ensures i in IdsOf(x.existing, removed + {n}) {
      if i != x.existing[n] {
        var m :| m in removed && x.existing[m] == i;
        assert m in removed + {n};
      } else {
        assert n in removed + {n};
      }
    }
  }
}
