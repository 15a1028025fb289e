/** Group and meter ids by name (lib/extend-table.c). */
module ExtendTables {
  import opened Bits

  const MAX_ID: nat := 65535
  const ID_INVALID: nat := 0

  /** A name that is wanted, its id, and whether the id was reserved for it just
    * now rather than taken over from the installed entry. */
  datatype Entry = Entry(id: nat, isNew: bool)

  /** 'ids' is the bitmap of ids in use. */
  datatype Ext = Ext(ids: Bits, desired: map<string, Entry>, existing: map<string, nat>)

  function DesiredIds(d: map<string, Entry>): (r: Bits)
    ensures forall i :: i in r <==> exists n :: n in d && d[n].id == i
  {
    set n | n in d :: d[n].id
  }

  function ExistingIds(e: map<string, nat>): (r: Bits)
    ensures forall i :: i in r <==> exists n :: n in e && e[n] == i
  {
    set n | n in e :: e[n]
  }

  /** The ids that were reserved for entries of 'd'. */
  function NewIds(d: map<string, Entry>): (r: Bits)
    ensures forall i :: i in r <==> exists n :: n in d && d[n].isNew && d[n].id == i
  {
    set n | n in d && d[n].isNew :: d[n].id
  }

  /** The bitmap holds 0 and the ids of both maps. */
  ghost predicate Bitmap(x: Ext) {
    x.ids == {0} + DesiredIds(x.desired) + ExistingIds(x.existing)
  }

  ghost predicate InRange(x: Ext) {
    && (forall n :: n in x.existing ==> 0 < x.existing[n] <= MAX_ID)
    && (forall n :: n in x.desired ==> 0 < x.desired[n].id <= MAX_ID)
  }

  /** An id belongs to one name, across both maps. */
  ghost predicate OneName(x: Ext) {
    && (forall n, m :: n in x.existing && m in x.existing && x.existing[n] == x.existing[m] ==> n == m)
    && (forall n, m :: n in x.desired && m in x.desired && x.desired[n].id == x.desired[m].id ==> n == m)
    && (forall n, m :: n in x.desired && m in x.existing && x.desired[n].id == x.existing[m] ==> n == m)
  }

  /** A name has one id, and it is new exactly when it is not installed. */
  ghost predicate OneId(x: Ext) {
    && (forall n :: n in x.desired ==> (x.desired[n].isNew <==> n !in x.existing))
    && (forall n :: n in x.desired && n in x.existing ==> x.desired[n].id == x.existing[n])
  }

  ghost predicate Valid(x: Ext) {
    Bitmap(x) && InRange(x) && OneName(x) && OneId(x)
  }

  const EMPTY: Ext := Ext({0}, map[], map[])

  lemma EmptyValid()
    ensures Valid(EMPTY)
  {
  }

  /** ovn_extend_table_assign_id(): the id for 'name', or ID_INVALID if there is
    * none left. */
  function Assign(x: Ext, name: string): (r: (Ext, nat))
  {
    if name in x.desired then (x, x.desired[name].id)
    else
      var prev := if name in x.existing then x.existing[name] else 0;
      var id := if prev != 0 then prev else Scan(x.ids, false, 1, MAX_ID + 1);
      if id == MAX_ID + 1 then (x, ID_INVALID)
      else (x.(ids := x.ids + {id}, desired := x.desired[name := Entry(id, prev == 0)]), id)
  }

  function Reserve(x: Ext, name: string, id: nat): (r: Ext) {
    x.(ids := x.ids + {id}, desired := x.desired[name := Entry(id, name !in x.existing)])
  }

  /** Which id a name gets: the one it has already, else one that nobody has;
    * none only when all ids are in use. */
  lemma AssignId(x: Ext, name: string)
    requires Valid(x)
    ensures var id := Assign(x, name).1;
            && (id == ID_INVALID <==> name !in x.desired && name !in x.existing && Range(0, MAX_ID + 1) <= x.ids)
            && (name in x.desired ==> id == x.desired[name].id)
            && (name in x.existing ==> id == x.existing[name])
            && (id != ID_INVALID && name !in x.existing && name !in x.desired ==> 0 < id <= MAX_ID && id !in x.ids)
  {
    if name !in x.desired && name !in x.existing {
      var i := Scan(x.ids, false, 1, MAX_ID + 1);
      if i == MAX_ID + 1 {
        assert 0 in x.ids;
        assert forall j :: 1 <= j < MAX_ID + 1 ==> j in x.ids;
      } else {
        assert i in Range(0, MAX_ID + 1);
      }
    }
  }

  /** Assigning an id keeps the table valid and changes nothing else. */
  lemma AssignCorrect(x: Ext, name: string)
    requires Valid(x)
    ensures var (y, id) := Assign(x, name);
            && Valid(y)
            && y == if id == ID_INVALID || name in x.desired then x else Reserve(x, name, id)
  {
    AssignId(x, name);
    var (y, id) := Assign(x, name);
    if id != ID_INVALID && name !in x.desired {
      assert y == Reserve(x, name, id);
      AssignValid(x, name, id);
    }
  }

  lemma AssignValid(x: Ext, name: string, id: nat)
    requires Valid(x) && name !in x.desired && 0 < id <= MAX_ID
    requires if name in x.existing then id == x.existing[name] else id !in x.ids
    ensures Valid(Reserve(x, name, id))
  {
    AssignBitmap(x, name, id);
    AssignOneName(x, name, id);
    AssignOneId(x, name, id);
  }

  lemma AssignOneId(x: Ext, name: string, id: nat)
    requires InRange(x) && OneId(x) && name !in x.desired && 0 < id <= MAX_ID
    requires name in x.existing ==> id == x.existing[name]
    ensures InRange(Reserve(x, name, id)) && OneId(Reserve(x, name, id))
  {
  }

  lemma AssignBitmap(x: Ext, name: string, id: nat)
    requires Bitmap(x) && name !in x.desired
    ensures Bitmap(Reserve(x, name, id))
  {
    var d := x.desired[name := Entry(id, name !in x.existing)];
    forall i ensures i in DesiredIds(d) <==> i in DesiredIds(x.desired) || i == id {
      if i in DesiredIds(x.desired) {
        var n :| n in x.desired && x.desired[n].id == i;
        assert d[n].id == i;
      }
      if i == id {
        assert d[name].id == id;
      }
    }
  }

  lemma AssignOneName(x: Ext, name: string, id: nat)
    requires Valid(x) && name !in x.desired
    requires if name in x.existing then id == x.existing[name] else id !in x.ids
    ensures OneName(Reserve(x, name, id))
  {
    var d := x.desired[name := Entry(id, name !in x.existing)];
    forall m | m in x.desired ensures x.desired[m].id != id {
      NotDesired(x, name, id, m);
    }
    forall m | m in x.existing && x.existing[m] == id ensures m == name {
      assert id in ExistingIds(x.existing);
    }
  }

  lemma NotDesired(x: Ext, name: string, id: nat, m: string)
    requires Valid(x) && name !in x.desired && m in x.desired
    requires if name in x.existing then id == x.existing[name] else id !in x.ids
    ensures x.desired[m].id != id
  {
    assert x.desired[m].id in DesiredIds(x.desired);
  }

  /** ovn_extend_table_clear() of the installed entries. */
  function ClearExisting(x: Ext): (r: Ext) {
    x.(ids := x.ids - ExistingIds(x.existing), existing := map[])
  }

  /** ovn_extend_table_clear() of the wanted entries: only ids that were
    * reserved for them are given back. */
  function ClearDesired(x: Ext): (r: Ext) {
    x.(ids := x.ids - NewIds(x.desired), desired := map[])
  }

  lemma ClearDesiredValid(x: Ext)
    requires Valid(x)
    ensures Valid(ClearDesired(x)) && ClearDesired(x).existing == x.existing && ClearDesired(x).desired == map[]
  {
    var y := ClearDesired(x);
    forall i ensures i in y.ids <==> i == 0 || i in ExistingIds(x.existing) {
      if i in ExistingIds(x.existing) {
        var m :| m in x.existing && x.existing[m] == i;
        forall n | n in x.desired && x.desired[n].isNew ensures x.desired[n].id != i { }
      }
    }
    assert y.ids == {0} + DesiredIds(y.desired) + ExistingIds(y.existing);
  }

  /** Clearing the installed entries is safe when nothing is wanted yet. */
  lemma ClearExistingValid(x: Ext)
    requires Valid(x)
    ensures Valid(ClearExisting(x)) <==> forall n :: n in x.desired ==> n !in x.existing
  {
    var y := ClearExisting(x);
    if forall n :: n in x.desired ==> n !in x.existing {
      forall i ensures i in y.ids <==> i == 0 || i in DesiredIds(x.desired) { }
      assert y.ids == {0} + DesiredIds(y.desired) + ExistingIds(y.existing);
    } else {
      var n :| n in x.desired && n in x.existing;
      assert x.desired[n].id in DesiredIds(y.desired);
      assert x.existing[n] in ExistingIds(x.existing);
    }
  }

  /** ovn_extend_table_lookup(), which goes by id. */
  predicate HasId(e: map<string, nat>, id: nat) {
    exists n :: n in e && e[n] == id
  }

  predicate WantsId(d: map<string, Entry>, id: nat) {
    exists n :: n in d && d[n].id == id
  }

  /** Looking up by id finds the name's own entry or nothing. */
  lemma LookupByName(x: Ext, n: string)
    requires Valid(x)
    ensures n in x.desired ==> (HasId(x.existing, x.desired[n].id) <==> n in x.existing)
    ensures n in x.existing ==> (WantsId(x.desired, x.existing[n]) <==> n in x.desired)
  {
  }

  /** After a put: unwanted entries are removed and their ids released, wanted
    * ones are installed. */
  function Settle(x: Ext): (r: Ext) {
    Ext({0} + DesiredIds(x.desired), map[], map n | n in x.desired :: x.desired[n].id)
  }

  lemma SettleValid(x: Ext)
    requires Valid(x)
    ensures Valid(Settle(x))
  {
    var y := Settle(x);
    forall i ensures i in ExistingIds(y.existing) <==> i in DesiredIds(x.desired) {
      if i in DesiredIds(x.desired) {
        var n :| n in x.desired && x.desired[n].id == i;
        assert n in y.existing && y.existing[n] == i;
      }
    }
    assert DesiredIds(y.desired) == {};
  }

  // ----- one entry at a time

  lemma DropExisting(e: map<string, nat>, n: string)
    requires n in e
    ensures ExistingIds(e - {n}) + {e[n]} == ExistingIds(e)
  {
    forall i | i in ExistingIds(e) ensures i in ExistingIds(e - {n}) + {e[n]} {
      var m :| m in e && e[m] == i;
      if m != n {
        assert (e - {n})[m] == i;
      }
    }
  }

  lemma DropNew(d: map<string, Entry>, n: string)
    requires n in d
    ensures NewIds(d - {n}) + (if d[n].isNew then {d[n].id} else {}) == NewIds(d)
  {
    forall i | i in NewIds(d) ensures i in NewIds(d - {n}) + (if d[n].isNew then {d[n].id} else {}) {
      var m :| m in d && d[m].isNew && d[m].id == i;
      if m != n {
        assert (d - {n})[m].isNew && (d - {n})[m].id == i;
      }
    }
  }

  /** The installed entries once the wanted ones have been moved over. */
  function Merge(e: map<string, nat>, d: map<string, Entry>): (r: map<string, nat>) {
    map n | n in e.Keys + d.Keys :: if n in e then e[n] else d[n].id
  }

  /** 'owner' tells whose an id is, and a name has one id, while entries are
    * moved. */
  ghost predicate Owned(e: map<string, nat>, d: map<string, Entry>, owner: map<nat, string>) {
    && (forall n :: n in e ==> e[n] in owner && owner[e[n]] == n)
    && (forall n :: n in d ==> d[n].id in owner && owner[d[n].id] == n)
    && (forall n :: n in d && n in e ==> d[n].id == e[n])
  }

  /** A valid table has such an 'owner'. */
  lemma ValidOwned(x: Ext) returns (owner: map<nat, string>)
    requires Valid(x)
    ensures Owned(x.existing, x.desired, owner)
  {
    owner := map i | i in x.ids && (HasId(x.existing, i) || WantsId(x.desired, i)) ::
      if HasId(x.existing, i) then (var n :| n in x.existing && x.existing[n] == i; n)
      else (var n :| n in x.desired && x.desired[n].id == i; n);
    forall n | n in x.existing ensures x.existing[n] in owner && owner[x.existing[n]] == n {
      assert x.existing[n] in ExistingIds(x.existing);
    }
    forall n | n in x.desired ensures x.desired[n].id in owner && owner[x.desired[n].id] == n {
      assert x.desired[n].id in DesiredIds(x.desired);
    }
  }

  /** One wanted entry moved: installed unless its id already is. */
  function Install(e: map<string, nat>, n: string, id: nat): (r: map<string, nat>) {
    if HasId(e, id) then e else e[n := id]
  }

  lemma MoveOne(e: map<string, nat>, d: map<string, Entry>, n: string, owner: map<nat, string>)
    requires Owned(e, d, owner) && n in d
    ensures Owned(Install(e, n, d[n].id), d - {n}, owner)
    ensures Merge(Install(e, n, d[n].id), d - {n}) == Merge(e, d)
  {
    if HasId(e, d[n].id) {
      var m :| m in e && e[m] == d[n].id;
      assert m == n;
    }
    var m1, m2 := Merge(Install(e, n, d[n].id), d - {n}), Merge(e, d);
    assert m1.Keys == m2.Keys;
    assert m1 == m2;
  }

  lemma ReleaseNew(ids: Bits, d: map<string, Entry>, n: string)
    requires n in d
    ensures (if d[n].isNew then ids - {d[n].id} else ids) - NewIds(d - {n}) == ids - NewIds(d)
  {
    DropNew(d, n);
  }

  /** The installed entries that are not wanted. */
  function Unwanted(x: Ext): (r: set<string>) {
    set n | n in x.existing && n !in x.desired
  }

  function IdsOf(e: map<string, nat>, names: set<string>): (r: Bits)
    requires names <= e.Keys
    ensures forall i :: i in r <==> exists n :: n in names && e[n] == i
  {
    set n | n in names :: e[n]
  }

  /** Without the installed entries that are not wanted. */
  function Prune(x: Ext): (r: Ext) {
    Ext(x.ids - IdsOf(x.existing, Unwanted(x)), x.desired, x.existing - Unwanted(x))
  }

  lemma PruneIds(x: Ext)
    requires Valid(x)
    ensures Prune(x).ids == {0} + DesiredIds(x.desired)
  {
    forall i ensures i in Prune(x).ids <==> i == 0 || i in DesiredIds(x.desired) {
      if i in ExistingIds(x.existing) {
        var n :| n in x.existing && x.existing[n] == i;
        if n in x.desired {
          assert x.desired[n].id == i;
        } else {
          assert n in Unwanted(x);
        }
      }
    }
  }

  /** Pruning and then moving settles the table. */
  lemma PruneThenMerge(x: Ext)
    requires Valid(x)
    ensures Settle(x) == Ext(Prune(x).ids, map[], Merge(Prune(x).existing, x.desired))
  {
    PruneIds(x);
    var m := Merge(Prune(x).existing, x.desired);
    var e := Settle(x).existing;
    assert m.Keys == e.Keys;
    assert forall n :: n in m ==> m[n] == e[n];
    assert m == e;
  }

  lemma PruneOwned(x: Ext, owner: map<nat, string>)
    requires Owned(x.existing, x.desired, owner)
    ensures Owned(Prune(x).existing, x.desired, owner)
  {
  }
}
