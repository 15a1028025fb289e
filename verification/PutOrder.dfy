/** The order of a put's messages (controller/ofctrl.c): flows never refer to a group
  * or meter that is not there, and zones are flushed before flows change. */
module PutOrder {
  import opened Util
  import opened OpenFlow
  import opened Controller
  import opened SwitchSync
  import Ext = ExtendTables

  /** Every installed entry is in the switch's table. */
  ghost predicate HoldsInstalled(g: map<nat, string>, x: Ext.Ext) {
    forall n :: n in x.existing ==> x.existing[n] in g && g[x.existing[n]] == n
  }

  /** Every wanted entry is in the switch's table. */
  ghost predicate HoldsWanted(g: map<nat, string>, x: Ext.Ext) {
    forall n :: n in x.desired ==> x.desired[n].id in g && g[x.desired[n].id] == n
  }

  /** Flows do not change before what they need is there, and what they needed stays
    * until they have changed. */
  ghost predicate InOrder(flows: FlowTable, g: map<nat, string>, x: Ext.Ext, installed: FlowTable, desired: FlowTable) {
    (flows == installed || HoldsWanted(g, x)) && (flows == desired || HoldsInstalled(g, x))
  }

  // ----- the entries, part by part

  /** Some additions: what was installed stays. */
  lemma AddsKeepInstalled(kind: Kind, x: Ext.Ext, g: map<nat, string>, adds: seq<(Kind, nat, string)>,
      deletes: seq<(Kind, nat)>, k: nat)
    requires Ext.Valid(x) && HoldsInstalled(g, x) && IsExtDiff(kind, x, adds, deletes) && k <= |adds|
    ensures HoldsInstalled(EntriesAfter(kind, g, AddMsgs(adds[..k])), x)
  {
    forall n | n in x.existing
      ensures var h := EntriesAfter(kind, g, AddMsgs(adds[..k])); x.existing[n] in h && h[x.existing[n]] == n
    {
      AddedAt(kind, g, adds[..k], x.existing[n]);
    }
  }

  /** All additions: what is wanted is there. */
  lemma AddsBringWanted(kind: Kind, x: Ext.Ext, g: map<nat, string>, adds: seq<(Kind, nat, string)>,
      deletes: seq<(Kind, nat)>)
    requires Ext.Valid(x) && Agree(g, x.existing) && IsExtDiff(kind, x, adds, deletes)
    ensures HoldsWanted(EntriesAfter(kind, g, AddMsgs(adds)), x)
  {
    var h := EntriesAfter(kind, g, AddMsgs(adds));
    forall n | n in x.desired ensures x.desired[n].id in h && h[x.desired[n].id] == n {
      AddedAt(kind, g, adds, x.desired[n].id);
      WantedId(kind, x, g, adds, deletes, n, h);
    }
  }

  lemma NotDeleted(kind: Kind, x: Ext.Ext, adds: seq<(Kind, nat, string)>, deletes: seq<(Kind, nat)>, n: string)
    requires Ext.OneName(x) && IsExtDiff(kind, x, adds, deletes) && n in x.desired
    ensures (kind, x.desired[n].id) !in deletes
  {
  }

  /** Some deletions: what is wanted stays. */
  lemma DeletesKeepWanted(kind: Kind, x: Ext.Ext, g: map<nat, string>, adds: seq<(Kind, nat, string)>,
      deletes: seq<(Kind, nat)>, k: nat)
    requires Ext.OneName(x) && HoldsWanted(g, x) && IsExtDiff(kind, x, adds, deletes) && k <= |deletes|
    ensures HoldsWanted(EntriesAfter(kind, g, DeleteMsgs(deletes[..k])), x)
  {
    forall n | n in x.desired
      ensures var h := EntriesAfter(kind, g, DeleteMsgs(deletes[..k])); x.desired[n].id in h && h[x.desired[n].id] == n
    {
      DeletedAt(kind, g, deletes[..k], x.desired[n].id);
      NotDeleted(kind, x, adds, deletes, n);
    }
  }

  // ----- the messages, part by part

  /** Where the first 'k' messages of a put end. */
  lemma Parts(b: Batch, ps: seq<Pending>, k: nat)
    requires k <= |BatchMsgs(b, ps)|
    ensures var fl, ad, fm, de := FlushMsgs(ps), AddMsgs(b.adds), FlowMods(b.flows), DeleteMsgs(b.deletes);
            var f, a, w := |fl|, |fl| + |ad|, |fl| + |ad| + |fm|;
            BatchMsgs(b, ps)[..k] == if k <= f then fl[..k]
                                     else if k <= a then fl + ad[..k - f]
                                     else if k <= w then fl + ad + fm[..k - a]
                                     else fl + ad + fm + de[..k - w]
  {
  }

  lemma OnlyFlushes(ps: seq<Pending>, k: nat)
    requires k <= |FlushMsgs(ps)|
    ensures forall m :: m in FlushMsgs(ps)[..k] ==> m.FlushZone?
  {
    forall m | m in FlushMsgs(ps)[..k] ensures m.FlushZone? {
      assert m in FlushMsgs(ps);
    }
  }

  /** Before the flows. */
  lemma EarlyPart(kind: Kind, t: FlowTable, g: map<nat, string>, x: Ext.Ext, b: Batch, ps: seq<Pending>, k: nat)
    requires Ext.Valid(x) && HoldsInstalled(g, x) && IsExtDiff(kind, x, b.adds, b.deletes) && k <= |b.adds|
    ensures var ms := FlushMsgs(ps) + AddMsgs(b.adds)[..k];
            FlowsAfter(t, ms) == t && HoldsInstalled(EntriesAfter(kind, g, ms), x)
  {
    var fl, ad := FlushMsgs(ps), AddMsgs(b.adds)[..k];
    FlowsUntouched(t, fl + ad);
    EntriesConcat(kind, g, fl, ad);
    EntriesUntouched(kind, g, fl);
    assert ad == AddMsgs(b.adds[..k]);
    AddsKeepInstalled(kind, x, g, b.adds, b.deletes, k);
  }

  lemma AllAdds(b: Batch)
    ensures AddMsgs(b.adds)[..|b.adds|] == AddMsgs(b.adds)
  {
  }

  /** After the additions, as long as nothing but flows follows. */
  lemma MiddlePart(kind: Kind, g: map<nat, string>, x: Ext.Ext, b: Batch, ps: seq<Pending>, ms: seq<Msg>)
    requires Ext.Valid(x) && Agree(g, x.existing) && IsExtDiff(kind, x, b.adds, b.deletes)
    requires forall m :: m in ms ==> NotEntry(kind, m)
    ensures var h := EntriesAfter(kind, g, FlushMsgs(ps) + AddMsgs(b.adds) + ms);
            HoldsInstalled(h, x) && HoldsWanted(h, x)
  {
    var fl, ad := FlushMsgs(ps), AddMsgs(b.adds);
    AllAdds(b);
    EarlyPart(kind, map[], g, x, b, ps, |b.adds|);
    EntriesConcat(kind, g, fl + ad, ms);
    EntriesUntouched(kind, EntriesAfter(kind, g, fl + ad), ms);
    EntriesConcat(kind, g, fl, ad);
    EntriesUntouched(kind, g, fl);
    AddsBringWanted(kind, x, g, b.adds, b.deletes);
  }

  /** After the flows. */
  lemma LatePart(kind: Kind, t: FlowTable, g: map<nat, string>, x: Ext.Ext, b: Batch, ps: seq<Pending>,
      desired: FlowTable, k: nat)
    requires Ext.Valid(x) && Agree(g, x.existing) && IsExtDiff(kind, x, b.adds, b.deletes) && k <= |b.deletes|
    requires IsDiff(b.flows, t, desired)
    ensures var ms := FlushMsgs(ps) + AddMsgs(b.adds) + FlowMods(b.flows) + DeleteMsgs(b.deletes)[..k];
            FlowsAfter(t, ms) == desired && HoldsWanted(EntriesAfter(kind, g, ms), x)
  {
    var fa, fm, de := FlushMsgs(ps) + AddMsgs(b.adds), FlowMods(b.flows), DeleteMsgs(b.deletes)[..k];
    FlowsConcat(t, fa + fm, de);
    FlowsConcat(t, fa, fm);
    FlowsUntouched(t, fa);
    DiffApplies(b.flows, t, desired);
    FlowsUntouched(desired, de);
    MiddlePart(kind, g, x, b, ps, fm);
    EntriesConcat(kind, g, fa + fm, de);
    assert de == DeleteMsgs(b.deletes[..k]);
    DeletesKeepWanted(kind, x, EntriesAfter(kind, g, fa + fm), b.adds, b.deletes, k);
  }

  /** Messages that a put starts with. */
  ghost predicate IsStart(ms: seq<Msg>, b: Batch, ps: seq<Pending>) {
    || (exists j :: 0 <= j <= |FlushMsgs(ps)| && ms == FlushMsgs(ps)[..j])
    || (exists j :: 0 <= j <= |b.adds| && ms == FlushMsgs(ps) + AddMsgs(b.adds)[..j])
    || (exists j :: 0 <= j <= |b.flows| && ms == FlushMsgs(ps) + AddMsgs(b.adds) + FlowMods(b.flows)[..j])
    || (exists j :: 0 <= j <= |b.deletes|
                    && ms == FlushMsgs(ps) + AddMsgs(b.adds) + FlowMods(b.flows) + DeleteMsgs(b.deletes)[..j])
  }

  lemma StartOf(b: Batch, ps: seq<Pending>, k: nat)
    requires k <= |BatchMsgs(b, ps)|
    ensures IsStart(BatchMsgs(b, ps)[..k], b, ps)
  {
    Parts(b, ps, k);
  }

  lemma StartInOrder(kind: Kind, t: FlowTable, g: map<nat, string>, x: Ext.Ext, b: Batch, ps: seq<Pending>,
      desired: FlowTable, ms: seq<Msg>)
    requires Ext.Valid(x) && Agree(g, x.existing) && IsExtDiff(kind, x, b.adds, b.deletes)
    requires IsDiff(b.flows, t, desired) && IsStart(ms, b, ps)
    ensures InOrder(FlowsAfter(t, ms), EntriesAfter(kind, g, ms), x, t, desired)
  {
    if j: nat :| j <= |FlushMsgs(ps)| && ms == FlushMsgs(ps)[..j] {
      OnlyFlushes(ps, j);
      FlowsUntouched(t, ms);
      EntriesUntouched(kind, g, ms);
    } else if j: nat :| j <= |b.adds| && ms == FlushMsgs(ps) + AddMsgs(b.adds)[..j] {
      EarlyPart(kind, t, g, x, b, ps, j);
    } else if j: nat :| j <= |b.flows| && ms == FlushMsgs(ps) + AddMsgs(b.adds) + FlowMods(b.flows)[..j] {
      MiddlePart(kind, g, x, b, ps, FlowMods(b.flows)[..j]);
    } else {
      var j: nat :| j <= |b.deletes|
                    && ms == FlushMsgs(ps) + AddMsgs(b.adds) + FlowMods(b.flows) + DeleteMsgs(b.deletes)[..j];
      LatePart(kind, t, g, x, b, ps, desired, j);
    }
  }

  /** However far the switch has got with a put's messages, its tables fit together. */
  lemma AlwaysInOrder(kind: Kind, t: FlowTable, g: map<nat, string>, x: Ext.Ext, b: Batch, ps: seq<Pending>,
      desired: FlowTable, k: nat)
    requires Ext.Valid(x) && Agree(g, x.existing) && IsExtDiff(kind, x, b.adds, b.deletes)
    requires IsDiff(b.flows, t, desired) && k <= |BatchMsgs(b, ps)|
    ensures var ms := BatchMsgs(b, ps)[..k]; InOrder(FlowsAfter(t, ms), EntriesAfter(kind, g, ms), x, t, desired)
  {
    StartOf(b, ps, k);
    StartInOrder(kind, t, g, x, b, ps, desired, BatchMsgs(b, ps)[..k]);
  }

  lemma FlushesFirst(t: FlowTable, b: Batch, ps: seq<Pending>, k: nat)
    requires k <= |BatchMsgs(b, ps)| && FlowsAfter(t, BatchMsgs(b, ps)[..k]) != t
    ensures FlushMsgs(ps) <= BatchMsgs(b, ps)[..k]
  {
    Parts(b, ps, k);
    if k <= |FlushMsgs(ps)| {
      OnlyFlushes(ps, k);
      FlowsUntouched(t, FlushMsgs(ps)[..k]);
    }
  }

  // ----- in runs

  function EntriesBefore(net: Net, kind: Kind): (r: map<nat, string>) {
    if kind == Group then net.groups0 else net.meters0
  }

  lemma BatchInOrder(s: Sys, desired: FlowTable, batch: Batch, kind: Kind, k: nat)
    requires IdsOk(s) && InSync(s) && Updating(s) && IsBatch(batch, s.ctl, desired)
    requires k <= |BatchMsgs(batch, s.ctl.pending)|
    ensures var sent := s.net.sent + BatchMsgs(batch, s.ctl.pending)[..k];
            InOrder(FlowsAfter(s.net.flows0, sent), EntriesAfter(kind, EntriesBefore(s.net, kind), sent),
                    Table(s.ctl, kind), s.ctl.installed, desired)
  {
    var ms, g0 := BatchMsgs(batch, s.ctl.pending)[..k], EntriesBefore(s.net, kind);
    BatchExtDiff(s.ctl, batch, desired, kind);
    FlowsConcat(s.net.flows0, s.net.sent, ms);
    EntriesConcat(kind, g0, s.net.sent, ms);
    AlwaysInOrder(kind, s.ctl.installed, EntriesAfter(kind, g0, s.net.sent), Table(s.ctl, kind), batch, s.ctl.pending,
                  desired, k);
  }

  lemma FlushedBefore(s: Sys, batch: Batch, k: nat)
    requires InSync(s) && Updating(s) && k <= |BatchMsgs(batch, s.ctl.pending)|
    requires FlowsAfter(s.net.flows0, s.net.sent + BatchMsgs(batch, s.ctl.pending)[..k]) != s.ctl.installed
    ensures forall p :: p in s.ctl.pending && p.state == OfQueued ==>
              FlushZone(p.zone) in BatchMsgs(batch, s.ctl.pending)[..k]
  {
    var ms := BatchMsgs(batch, s.ctl.pending)[..k];
    FlowsConcat(s.net.flows0, s.net.sent, ms);
    FlushesFirst(s.ctl.installed, batch, s.ctl.pending, k);
    forall p | p in s.ctl.pending && p.state == OfQueued ensures FlushZone(p.zone) in ms {
      assert FlushZone(p.zone) in FlushMsgs(s.ctl.pending);
    }
  }

  /** In every run: however far the switch gets with the messages of a put, flows have
    * not changed unless every group and meter wanted is there and every flush was
    * processed, and what was installed stays until all flows have changed. */
  lemma PutInOrder(run: seq<Sys>, i: nat, desired: FlowTable, nbCfg: int, batch: Batch, backlog: bool, kind: Kind,
                   k: nat)
    requires IsRun(run) && i < |run| && Enabled(run[i], DoPut(desired, nbCfg, batch, backlog))
    requires CanPut(run[i].ctl, backlog) && k <= |BatchMsgs(batch, run[i].ctl.pending)|
    ensures var s := run[i];
            var ms := BatchMsgs(batch, s.ctl.pending)[..k];
            var flows := FlowsAfter(s.net.flows0, s.net.sent + ms);
            && s.net.sent + ms <= Do(s, DoPut(desired, nbCfg, batch, backlog)).net.sent
            && InOrder(flows, EntriesAfter(kind, EntriesBefore(s.net, kind), s.net.sent + ms), Table(s.ctl, kind),
                       s.ctl.installed, desired)
            && (flows != s.ctl.installed ==>
                  forall p :: p in s.ctl.pending && p.state == OfQueued ==> FlushZone(p.zone) in ms)
  {
    InvAlways(run, i);
    var s := run[i];
    var bm := BatchMsgs(batch, s.ctl.pending);
    PutMsgs(s.ctl, desired, nbCfg, batch);
    Sent(s.net.sent, bm, k, Barrier(s.ctl.nextXid));
    BatchInOrder(s, desired, batch, kind, k);
    if FlowsAfter(s.net.flows0, s.net.sent + bm[..k]) != s.ctl.installed {
      FlushedBefore(s, batch, k);
    }
  }

  lemma Sent(sent: seq<Msg>, bm: seq<Msg>, k: nat, barrier: Msg)
    requires k <= |bm|
    ensures sent + bm[..k] <= sent + (bm + [barrier]) && sent + bm[..k] <= sent + bm
  {
  }

  /** Nothing is built or put while messages are still queued: a put is refused then,
    * leaves the switch alone and forgets what was wanted. */
  lemma BacklogRefuses(s: Sys, desired: FlowTable, nbCfg: int, batch: Batch)
    requires Enabled(s, DoPut(desired, nbCfg, batch, true))
    ensures !Enabled(s, BeginBuild(true))
    ensures var t := Do(s, DoPut(desired, nbCfg, batch, true));
            && t.net == s.net && t.log == s.log && t.ctl.installed == s.ctl.installed
            && forall kind :: Table(t.ctl, kind).desired == map[]
                              && Table(t.ctl, kind).existing == Table(s.ctl, kind).existing
  {
  }
}
