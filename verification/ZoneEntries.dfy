/** What update_ct_zones() (controller/ovn-controller.c) records is what the steps of
  * the system add, so that its guarantees are about these zones. */
module ZoneEntries {
  import opened Controller
  import opened SwitchSync
  import opened SwitchGuarantees
  import opened CtZones

  /** An entry that a step for an added or a removed zone appends. */
  predicate IsNew(p: Pending) {
    p.xid == 0 && p.state == if p.add then OfQueued else DbQueued
  }

  function Recorded(s: Sys, entries: seq<Pending>): (r: Sys) {
    s.(ctl := s.ctl.(pending := s.ctl.pending + entries))
  }

  lemma {:induction false} EntriesAreSteps(s: Sys, entries: seq<Pending>) returns (path: seq<Sys>)
    requires !s.building && forall p :: p in entries ==> IsNew(p)
    ensures Steps(path, s, Recorded(s, entries))
    decreases |entries|
  {
    if entries == [] {
      path := [s];
      assert s.ctl.pending + entries == s.ctl.pending;
    } else {
      var p := entries[0];
      assert p in entries;
      var step := if p.add then ZoneAdded(p.user, p.zone) else ZoneRemoved(p.user, p.zone);
      var t := Do(s, step);
      path := EntriesAreSteps(t, entries[1..]);
      assert s.ctl.pending + [p] + entries[1..] == s.ctl.pending + entries;
      FirstStep(s, step, t, path, Recorded(s, entries));
      path := [s] + path;
    }
  }

  /** Any run goes on with what an update of the zones records. */
  lemma UpdateGoesOn(run: seq<Sys>, entries: seq<Pending>, before: Zones, after: Zones) returns (run1: seq<Sys>)
    requires IsRun(run) && !run[|run| - 1].building && RecordsChanges(entries, before, after)
    ensures IsRun(run1) && |run| <= |run1| && run1[..|run|] == run
    ensures run1[|run1| - 1] == Recorded(run[|run| - 1], entries)
  {
    forall p | p in entries ensures IsNew(p) {
      assert EntryRight(p, before, after);
    }
    var s := run[|run| - 1];
    var path := EntriesAreSteps(s, entries);
    RunThenSteps(run, path, Recorded(s, entries));
    run1 := run + path[1..];
  }

  /** Once the database has stored what was handed over to it, that is forgotten, and
    * nothing else is. */
  lemma StoredIsForgotten(s: Sys, p: Pending)
    ensures p in Do(Do(s, CommitZones), ZonesStored).ctl.pending
            <==> p in s.ctl.pending && (p.state == OfQueued || p.state == OfSent)
  {
    var ps, qs := s.ctl.pending, CommittedAll(s.ctl.pending);
    if p in ps {
      var i :| 0 <= i < |ps| && ps[i] == p;
      assert qs[i] == Committed(p);
    }
    if p in qs {
      var i :| 0 <= i < |qs| && qs[i] == p;
      assert p == Committed(ps[i]);
    }
  }
}
