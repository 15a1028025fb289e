/** Conntrack zone allocation (controller/ovn-controller.c): each user has a zone
  * of its own, and the bitmap says which zones are in use. */
module CtZones {
  import opened Bits
  import opened Controller

  const MAX_CT_ZONES: nat := 65535

  type Zones = map<string, nat>

  function ZonesOf(z: Zones): (r: Bits)
    ensures forall i :: i in r <==> exists u :: u in z && z[u] == i
  {
    set u | u in z :: z[u]
  }

  ghost predicate InRange(z: Zones) {
    forall u :: u in z ==> 0 < z[u] <= MAX_CT_ZONES
  }

  ghost predicate OwnZone(z: Zones) {
    forall u, v :: u in z && v in z && z[u] == z[v] ==> u == v
  }

  /** The bitmap holds zone 0, which is reserved, and the zones handed out; these
    * are distinct and in range. */
  ghost predicate Agreement(z: Zones, used: Bits) {
    used == {0} + ZonesOf(z) && InRange(z) && OwnZone(z)
  }

  lemma TakeZone(z: Zones, used: Bits, u: string, zone: nat)
    requires Agreement(z, used) && u !in z && 0 < zone <= MAX_CT_ZONES && zone !in used
    ensures Agreement(z[u := zone], used + {zone})
  {
    var z1 := z[u := zone];
    forall i ensures i in ZonesOf(z1) <==> i in ZonesOf(z) || i == zone {
      if i in ZonesOf(z) {
        var v :| v in z && z[v] == i;
        assert z1[v] == i;
      }
      assert z1[u] == zone;
    }
    forall v | v in z ensures z[v] != zone {
      assert z[v] in ZonesOf(z);
    }
  }

  lemma ReleaseZone(z: Zones, used: Bits, u: string)
    requires Agreement(z, used) && u in z
    ensures Agreement(z - {u}, used - {z[u]})
  {
    var z1 := z - {u};
    forall i ensures i in ZonesOf(z1) <==> i in ZonesOf(z) && i != z[u] {
      if i in ZonesOf(z) && i != z[u] {
        var v :| v in z && z[v] == i;
        assert z1[v] == i;
      }
    }
  }

  /** The users that need a zone: local ports, and two for each local datapath. */
  function AllUsers(lports: set<string>, datapaths: set<string>): (r: set<string>) {
    lports + (set d | d in datapaths :: d + "_dnat") + (set d | d in datapaths :: d + "_snat")
  }

  predicate IsNatUser(u: string, d: string) {
    u == d + "_dnat" || u == d + "_snat"
  }

  lemma AllUsersIff(lports: set<string>, datapaths: set<string>, u: string)
    ensures u in AllUsers(lports, datapaths) <==> u in lports || exists d :: d in datapaths && IsNatUser(u, d)
  {
    if d :| d in datapaths && IsNatUser(u, d) {
      assert d + "_dnat" in (set d | d in datapaths :: d + "_dnat");
      assert d + "_snat" in (set d | d in datapaths :: d + "_snat");
    }
  }

  lemma OneMoreDatapath(lports: set<string>, ds: set<string>, d: string)
    ensures AllUsers(lports, ds + {d}) == AllUsers(lports, ds) + {d + "_dnat", d + "_snat"}
  {
    forall u ensures u in AllUsers(lports, ds + {d}) <==> u in AllUsers(lports, ds) || IsNatUser(u, d) {
      AllUsersIff(lports, ds + {d}, u);
      AllUsersIff(lports, ds, u);
      assert d in ds + {d};
    }
  }

  /** One entry for each user that lost its zone or got one, and no others. */
  ghost predicate Records(entries: seq<Pending>, before: Zones, after: Zones) {
    && (forall p :: p in entries <==>
          || (p.user in before && p.user !in after && p == Pending(p.user, before[p.user], false, 0, DbQueued))
          || (p.user in after && p.user !in before && p == Pending(p.user, after[p.user], true, 0, OfQueued)))
    && (forall i, j :: 0 <= i < j < |entries| ==> entries[i] != entries[j])
  }

  /** Each user that got a zone or lost it has an entry. */
  ghost predicate AllRecorded(entries: seq<Pending>, before: Zones, after: Zones) {
    forall u :: (u in after) != (u in before) ==> exists p :: p in entries && p.user == u
  }

  /** For a user that got a zone, the entry waits to be flushed and has no barrier
    * yet; for a user that lost it, it waits for the database. */
  predicate EntryRight(p: Pending, before: Zones, after: Zones) {
    && p.xid == 0
    && if p.user in after then p.user !in before && p.add && p.zone == after[p.user] && p.state == OfQueued
       else p.user in before && !p.add && p.zone == before[p.user] && p.state == DbQueued
  }

  ghost predicate OncePerUser(entries: seq<Pending>) {
    forall i, j :: 0 <= i < j < |entries| ==> entries[i].user != entries[j].user
  }

  ghost predicate EntriesRight(entries: seq<Pending>, before: Zones, after: Zones) {
    forall p :: p in entries ==> EntryRight(p, before, after)
  }

  ghost predicate RecordsChanges(entries: seq<Pending>, before: Zones, after: Zones) {
    AllRecorded(entries, before, after) && EntriesRight(entries, before, after) && OncePerUser(entries)
  }

  lemma RecordsSay(entries: seq<Pending>, before: Zones, after: Zones)
    requires Records(entries, before, after)
    ensures RecordsChanges(entries, before, after)
  {
    forall u | (u in after) != (u in before) ensures exists p :: p in entries && p.user == u {
      if u in after {
        assert Pending(u, after[u], true, 0, OfQueued) in entries;
      } else {
        assert Pending(u, before[u], false, 0, DbQueued) in entries;
      }
    }
    forall i, j | 0 <= i < j < |entries| ensures entries[i].user != entries[j].user {
      assert entries[i] in entries && entries[j] in entries;
    }
  }

  lemma RecordRemoval(entries: seq<Pending>, before: Zones, z: Zones, u: string)
    requires Records(entries, before, z) && u in z && u in before && z[u] == before[u]
    ensures Records(entries + [Pending(u, z[u], false, 0, DbQueued)], before, z - {u})
  {
  }

  lemma RecordAddition(entries: seq<Pending>, before: Zones, z: Zones, u: string, zone: nat)
    requires Records(entries, before, z) && u !in z && u !in before
    ensures Records(entries + [Pending(u, zone, true, 0, OfQueued)], before, z[u := zone])
  {
  }

  class ZoneTable {
    const bitmap: array<bool>
    ghost var used: Bits  // the 1-bits of 'bitmap'
    var zones: Zones
    var pending: seq<Pending>

    ghost predicate Ready()
      reads this`used, bitmap
    {
      && bitmap.Length == MAX_CT_ZONES + 1
      && forall i: nat :: i in used <==> i < bitmap.Length && bitmap[i]
    }

    constructor ()
      ensures Ready() && fresh(bitmap) && zones == map[] && pending == [] && Agreement(zones, used)
    {
      var b := new bool[MAX_CT_ZONES + 1](i => i == 0);
      bitmap := b;
      used := {0};
      zones := map[];
      pending := [];
    }

    /** Lowest free zone from 'start' on, or MAX_CT_ZONES + 1. */
    method ScanFree(start: nat) returns (zone: nat)
      requires Ready() && start <= MAX_CT_ZONES + 1
      ensures zone == Scan(used, false, start, MAX_CT_ZONES + 1)
    {
      zone := start;
      while zone <= MAX_CT_ZONES && bitmap[zone]
        invariant start <= zone <= MAX_CT_ZONES + 1
        invariant Scan(used, false, start, MAX_CT_ZONES + 1) == Scan(used, false, zone, MAX_CT_ZONES + 1)
      {
        zone := zone + 1;
      }
    }

    method SetBit(zone: nat, b: bool)
      requires Ready() && zone <= MAX_CT_ZONES
      modifies bitmap, this`used
      ensures Ready() && used == if b then old(used) + {zone} else old(used) - {zone}
    {
      bitmap[zone] := b;
      used := if b then used + {zone} else used - {zone};
    }

    /** Takes the zone of 'u' away. */
    method ReleaseOne(u: string)
      requires Ready() && u in zones && zones[u] <= MAX_CT_ZONES
      modifies this, bitmap
      ensures Ready() && zones == old(zones) - {u} && used == old(used) - {old(zones)[u]}
      ensures pending == old(pending) + [Pending(u, old(zones)[u], false, 0, DbQueued)]
    {
      pending := pending + [Pending(u, zones[u], false, 0, DbQueued)];
      SetBit(zones[u], false);
      zones := zones - {u};
    }

    /** Takes the zones of all but 'users' away. */
    method DropZones(users: set<string>)
      requires Ready()
      requires Agreement(zones, used)
      modifies this, bitmap
      ensures Ready()
      ensures Agreement(zones, used)
      ensures zones == old(zones) - (old(zones).Keys - users)
      ensures old(pending) <= pending && Records(pending[|old(pending)|..], old(zones), zones)
    {
      ghost var before, was := zones, pending;
      ghost var entries: seq<Pending> := [];
      var todo := zones.Keys;
      while todo != {}
        invariant Ready()
        invariant Dropping(before, users, todo, zones, used, entries)
        invariant pending == was + entries
      {
        var u :| u in todo;
        DropStep(before, users, todo, zones, used, entries, u);
        if u !in users {
          entries := entries + [Pending(u, zones[u], false, 0, DbQueued)];
          ReleaseOne(u);
        }
        todo := todo - {u};
      }
      DropEnd(before, users, zones, used, entries);
      assert pending[|was|..] == entries;
    }

    /** Gives 'u' the lowest free zone from 'scanStart' on, if there is one. */
    method AssignZone(u: string, scanStart: nat) returns (zone: nat)
      requires Ready() && scanStart <= MAX_CT_ZONES + 1
      modifies this, bitmap
      ensures Ready() && zone == Scan(old(used), false, scanStart, MAX_CT_ZONES + 1)
      ensures zone == MAX_CT_ZONES + 1 ==> zones == old(zones) && used == old(used) && pending == old(pending)
      ensures zone <= MAX_CT_ZONES ==>
                zones == old(zones)[u := zone] && used == old(used) + {zone}
                  && pending == old(pending) + [Pending(u, zone, true, 0, OfQueued)]
    {
      zone := ScanFree(scanStart);
      if zone <= MAX_CT_ZONES {
        pending := pending + [Pending(u, zone, true, 0, OfQueued)];
        SetBit(zone, true);
        zones := zones[u := zone];
      }
    }

    /** Gives 'u' a zone if it has none; 'full' if there is none to give.  'log'
      * records what has changed since 'before', and 'added' what is new. */
    method ServeUser(u: string, scanStart: nat, ghost before: Zones, ghost z0: Zones, ghost users: set<string>,
                     ghost todo: set<string>, ghost log: seq<Pending>)
      returns (full: bool, next: nat, ghost added: seq<Pending>)
      requires Ready() && Adding(before, z0, users, todo, zones, used, log, scanStart) && u in todo
      modifies this, bitmap
      ensures Ready() && pending == old(pending) + added
      ensures full ==> zones == old(zones) && used == old(used) && next == scanStart && added == []
      ensures full ==> Range(0, MAX_CT_ZONES + 1) <= used
      ensures !full ==> Adding(before, z0, users, todo - {u}, zones, used, log + added, next)
    {
      AddStep(before, z0, users, todo, zones, used, log, scanStart, u);
      full, next, added := false, scanStart, [];
      assert log + [] == log;
      if u !in zones {
        var zone := AssignZone(u, scanStart);
        if zone == MAX_CT_ZONES + 1 {
          full := true;
        } else {
          next := zone + 1;
          added := [Pending(u, zone, true, 0, OfQueued)];
        }
      }
    }

    /** Gives a zone to each of 'users' that has none, as long as there are
      * free ones.  'entries' records what has changed since 'before'. */
    method AddZones(users: set<string>, ghost before: Zones, ghost entries: seq<Pending>)
      requires Ready()
      requires Adding(before, zones, users, users, zones, used, entries, 1)
      modifies this, bitmap
      ensures Ready()
      ensures Agreement(zones, used) && zones.Keys <= users
      ensures KeepsZones(old(zones), zones)
      ensures zones.Keys == users || Range(0, MAX_CT_ZONES + 1) <= used
      ensures old(pending) <= pending
      ensures Records(entries + pending[|old(pending)|..], before, zones)
    {
      ghost var z0, was, log := zones, pending, entries;
      var scanStart, full := 1, false;
      var todo := users;
      assert pending[|was|..] == [] && entries + [] == entries;
      while todo != {} && !full
        invariant Ready() && was <= pending && log == entries + pending[|was|..]
        invariant Adding(before, z0, users, todo, zones, used, log, scanStart)
        invariant full ==> Range(0, MAX_CT_ZONES + 1) <= used
        decreases todo, !full
      {
        var u :| u in todo;
        ghost var now, added := pending, [];
        assert log + [] == log;
        full, scanStart, added := ServeUser(u, scanStart, before, z0, users, todo, log);
        LogMore(entries, was, now, added);
        log := log + added;
        if !full {
          todo := todo - {u};
        }
      }
    }

    /** The loops over local ports and datapaths. */
    static method CollectUsers(lports: set<string>, datapaths: set<string>) returns (users: set<string>)
      ensures users == AllUsers(lports, datapaths)
    {
      users := lports;
      var todo := datapaths;
      assert AllUsers(lports, datapaths - todo) == lports;
      while todo != {}
        invariant todo <= datapaths && users == AllUsers(lports, datapaths - todo)
      {
        var d :| d in todo;
        OneMoreDatapath(lports, datapaths - todo, d);
        assert datapaths - todo + {d} == datapaths - (todo - {d});
        users := users + {d + "_dnat", d + "_snat"};
        todo := todo - {d};
      }
      assert datapaths - todo == datapaths;
    }

    /** update_ct_zones(): users that are gone lose their zones, the others keep
      * theirs, and new users get one each, unless every zone is in use. */
    method Update(lports: set<string>, datapaths: set<string>)
      requires Ready()
      requires Agreement(zones, used)
      modifies this, bitmap
      ensures Ready()
      ensures Agreement(zones, used)
      ensures Survive(old(zones), AllUsers(lports, datapaths), zones)
      ensures zones.Keys <= AllUsers(lports, datapaths)
      ensures zones.Keys == AllUsers(lports, datapaths) || Range(0, MAX_CT_ZONES + 1) <= used
      ensures old(pending) <= pending && RecordsChanges(pending[|old(pending)|..], old(zones), zones)
    {
      ghost var before, was := zones, pending;
      var users := CollectUsers(lports, datapaths);
      DropZones(users);
      ghost var entries, mid := pending[|was|..], pending;
      AddZones(users, before, entries);
      ghost var all := entries + pending[|mid|..];
      RecordsSay(all, before, zones);
      Slices(was, mid, pending);
    }
  }

  /** Part of the walk that takes zones away: 'todo' is still to be visited. */
  ghost predicate Dropping(before: Zones, users: set<string>, todo: set<string>, z: Zones, used: Bits,
                           entries: seq<Pending>)
  {
    && Agreement(z, used) && todo <= z.Keys <= before.Keys
    && KeepsZones(z, before) && Visited(before, users, todo, z)
    && Records(entries, before, z)
  }

  ghost predicate KeepsZones(z: Zones, z1: Zones) {
    forall u :: u in z ==> u in z1 && z1[u] == z[u]
  }

  /** The users that are not gone keep their zones. */
  ghost predicate Survive(before: Zones, users: set<string>, after: Zones) {
    forall u :: u in users && u in before ==> u in after && after[u] == before[u]
  }

  ghost predicate Visited(before: Zones, users: set<string>, todo: set<string>, z: Zones) {
    forall u :: u in before && u !in todo ==> (u in z <==> u in users)
  }

  ghost predicate StillServed(before: Zones, users: set<string>, z: Zones) {
    forall u :: u in before && u in users ==> u in z
  }

  lemma DropStep(before: Zones, users: set<string>, todo: set<string>, z: Zones, used: Bits, entries: seq<Pending>,
                 u: string)
    requires Dropping(before, users, todo, z, used, entries) && u in todo
    ensures u in users ==> Dropping(before, users, todo - {u}, z, used, entries)
    ensures u !in users ==>
              Dropping(before, users, todo - {u}, z - {u}, used - {z[u]},
                       entries + [Pending(u, z[u], false, 0, DbQueued)])
                && z[u] <= MAX_CT_ZONES
  {
    if u !in users {
      RecordRemoval(entries, before, z, u);
      ReleaseZone(z, used, u);
    }
  }

  lemma DropEnd(before: Zones, users: set<string>, z: Zones, used: Bits, entries: seq<Pending>)
    requires Dropping(before, users, {}, z, used, entries)
    ensures z == before - (before.Keys - users)
  {
    assert z.Keys == (before - (before.Keys - users)).Keys;
  }

  /** Part of the walk that gives zones out: nothing below 'scanStart' is free. */
  ghost predicate Adding(before: Zones, z0: Zones, users: set<string>, todo: set<string>, z: Zones, used: Bits,
                         entries: seq<Pending>, scanStart: nat)
  {
    && Agreement(z, used) && z.Keys <= users && todo <= users <= z.Keys + todo
    && KeepsZones(z0, z) && StillServed(before, users, z)
    && Records(entries, before, z)
    && 1 <= scanStart <= MAX_CT_ZONES + 1 && Range(0, scanStart) <= used
  }

  lemma Slices(a: seq<Pending>, b: seq<Pending>, c: seq<Pending>)
    requires a <= b && b <= c
    ensures a <= c && c[|a|..] == b[|a|..] + c[|b|..]
  {
  }

  lemma LogMore(entries: seq<Pending>, was: seq<Pending>, now: seq<Pending>, added: seq<Pending>)
    requires was <= now
    ensures was <= now + added && entries + (now + added)[|was|..] == entries + now[|was|..] + added
  {
    assert (now + added)[|was|..] == now[|was|..] + added;
  }

  /** The scan misses no free zone, and the one it finds may be given to 'u'. */
  lemma AddStep(before: Zones, z0: Zones, users: set<string>, todo: set<string>, z: Zones, used: Bits,
                entries: seq<Pending>, scanStart: nat, u: string)
    requires Adding(before, z0, users, todo, z, used, entries, scanStart) && u in todo
    ensures u in z ==> Adding(before, z0, users, todo - {u}, z, used, entries, scanStart)
    ensures var zone := Scan(used, false, scanStart, MAX_CT_ZONES + 1);
            && (zone == MAX_CT_ZONES + 1 ==> Range(0, MAX_CT_ZONES + 1) <= used)
            && (u !in z && zone <= MAX_CT_ZONES ==>
                  Adding(before, z0, users, todo - {u}, z[u := zone], used + {zone},
                         entries + [Pending(u, zone, true, 0, OfQueued)], zone + 1))
  {
    var zone := Scan(used, false, scanStart, MAX_CT_ZONES + 1);
    assert Range(0, zone) <= used by {
      forall i | i in Range(0, zone) ensures i in used {
        assert i < scanStart ==> i in Range(0, scanStart);
      }
    }
    if u !in z && zone <= MAX_CT_ZONES {
      assert 0 in used;
      TakeZone(z, used, u, zone);
      RecordAddition(entries, before, z, u, zone);
    }
  }
}
