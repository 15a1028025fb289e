/** What the controller promises about the switch, in every run: its tables, the
  * configuration numbers it reports, and the zones it has flushed. */
module SwitchGuarantees {
  import opened Util
  import opened OpenFlow
  import opened Controller
  import opened SwitchSync
  import Ext = ExtendTables

  /** The switch's flow table right now. */
  function SwitchTable(s: Sys): (r: FlowTable)
    requires s.net.done <= |s.net.sent|
  {
    FlowsAfter(s.net.flows0, s.net.sent[..s.net.done])
  }

  /** The messages still queued turn the switch's table into the one that the
    * controller takes for installed. */
  lemma QueueLeadsToInstalled(run: seq<Sys>, i: nat)
    requires IsRun(run) && i < |run| && Updating(run[i])
    ensures var s := run[i];
            s.net.done <= |s.net.sent| && FlowsAfter(SwitchTable(s), s.net.sent[s.net.done..]) == s.ctl.installed
  {
    var s := run[i];
    InvAlways(run, i);
    assert s.net.sent == s.net.sent[..s.net.done] + s.net.sent[s.net.done..];
    FlowsConcat(s.net.flows0, s.net.sent[..s.net.done], s.net.sent[s.net.done..]);
  }

  // ----- configuration numbers

  /** The switch has processed messages that left its flow table as some put
    * with this configuration number wanted it. */
  ghost predicate Backed(s: Sys, nbCfg: int) {
    exists k: nat :: k <= s.net.done <= |s.net.sent|
      && PutRecord(nbCfg, FlowsAfter(s.net.flows0, s.net.sent[..k])) in s.log
  }

  /** A put that finds nothing to send and nothing in flight. */
  predicate ReportsAtOnce(s: Sys, step: Step) {
    && step.DoPut? && CanPut(s.ctl, step.backlog)
    && BatchMsgs(step.batch, s.ctl.pending) == [] && s.ctl.updates == []
  }

  /** Only a barrier's answer and such a put change the reported number. */
  lemma OnlyTheseReport(s: Sys, step: Step)
    requires Enabled(s, step) && Do(s, step).ctl.curCfg != s.ctl.curCfg
    ensures ReportsAtOnce(s, step)
              || (step == Run(true) && s.ctl.state == UpdateFlows && s.net.replies[0].BarrierReply?)
  {
    if step.Run? {
      var m := if step.receive then Some(s.net.replies[0]) else None;
      if s.ctl.state == UpdateFlows {
        TurnUpdates(s.ctl, m);
      } else {
        OthersDoNotReport(s.ctl, m);
      }
    }
  }

  lemma OthersDoNotReport(c: Ctl, m: Option<Reply>)
    requires c.state != UpdateFlows
    ensures Turn(c, m).0.curCfg == c.curCfg
  {
  }

  /** An update whose barrier has been processed is backed. */
  lemma AnsweredIsBacked(s: Sys, u: Update)
    requires NetOk(s) && Barrier(u.xid) in s.net.sent[..s.net.done] && exists j: nat :: TrackedAt(s.net, s.log, u, j)
    ensures Backed(s, u.nbCfg)
  {
    var j: nat :| TrackedAt(s.net, s.log, u, j);
    var i :| 0 <= i < s.net.done && s.net.sent[..s.net.done][i] == Barrier(u.xid);
    assert i == j;
    assert PutRecord(u.nbCfg, FlowsAfter(s.net.flows0, s.net.sent[..j + 1])) in s.log;
  }

  /** When a barrier's answer changes the reported number, the switch has had a
    * table that was wanted under that number. */
  lemma AnswerReports(s: Sys)
    requires Inv(s) && Enabled(s, Run(true)) && s.ctl.state == UpdateFlows
    requires Do(s, Run(true)).ctl.curCfg != s.ctl.curCfg
    ensures Backed(s, Do(s, Run(true)).ctl.curCfg)
  {
    var reply := s.net.replies[0];
    TurnUpdates(s.ctl, Some(reply));
    var u := s.ctl.updates[0];
    assert u in s.ctl.updates && reply in s.net.replies;
    AnsweredIsBacked(s, u);
  }

  /** Until a put has sent a barrier, nothing is installed. */
  ghost predicate NothingYet(s: Sys) {
    Updating(s) && !s.barriered ==> s.ctl.installed == map[]
  }

  lemma NothingYetKept(s: Sys, step: Step)
    requires NothingYet(s) && s.seqno <= s.net.epoch && Enabled(s, step)
    ensures NothingYet(Do(s, step))
  {
    match step
    case Run(receive) =>
      var m := if receive then Some(s.net.replies[0]) else None;
      if s.ctl.state == UpdateFlows {
        TurnUpdating(s.ctl, m);
      } else if s.ctl.state == ClearFlows {
        TurnClearing(s.ctl, m);
      } else {
        TurnNegotiating(s.ctl, m);
      }
    case DoPut(desired, nbCfg, batch, backlog) =>
      if CanPut(s.ctl, backlog) && BatchMsgs(batch, s.ctl.pending) == [] {
        EmptyBatch(s.ctl, batch, desired);
      }
    case AssignId(kind, name) => AssignKeeps(s.ctl, kind, name);
    case _ =>
  }

  lemma {:induction false} NothingYetAlways(run: seq<Sys>, i: nat)
    requires IsRun(run) && i < |run|
    ensures NothingYet(run[i])
  {
    if i > 0 {
      NothingYetAlways(run, i - 1);
      NoticedAlways(run, i - 1);
      var step := StepTo(run, i);
      NothingYetKept(run[i - 1], step);
    }
  }

  /** No flow is added, changed or deleted by itself on a connection before a put
    * does so. */
  ghost predicate NoModYet(s: Sys) {
    && (s.seqno != s.net.epoch ==> s.net.sent == [])
    && (s.ctl.state != UpdateFlows || !s.barriered ==> NoMods(s.net.sent))
  }

  predicate NoMods(ms: seq<Msg>) {
    forall i :: 0 <= i < |ms| ==> !ms[i].FlowMod?
  }

  lemma TurnSendsNoMod(c: Ctl, m: Option<Reply>)
    ensures NoMods(Turn(c, m).1)
  {
  }

  lemma NoModKept(s: Sys, step: Step)
    requires NoModYet(s) && NoticedOk(s) && Enabled(s, step)
    ensures NoModYet(Do(s, step))
  {
    match step
    case Run(receive) =>
      var m := if receive then Some(s.net.replies[0]) else None;
      TurnSendsNoMod(s.ctl, m);
      if s.ctl.state == UpdateFlows {
        TurnUpdating(s.ctl, m);
      }
    case DoPut(desired, nbCfg, batch, backlog) => PutMsgs(s.ctl, desired, nbCfg, batch);
    case AssignId(kind, name) => AssignKeeps(s.ctl, kind, name);
    case _ =>
  }

  lemma {:induction false} NoModAlways(run: seq<Sys>, i: nat)
    requires IsRun(run) && i < |run|
    ensures NoModYet(run[i])
  {
    if i > 0 {
      NoModAlways(run, i - 1);
      NoticedAlways(run, i - 1);
      var step := StepTo(run, i);
      NoModKept(run[i - 1], step);
    }
  }

  lemma {:induction false} TableWithoutMods(t: FlowTable, ms: seq<Msg>)
    requires NoMods(ms)
    ensures FlowsAfter(t, ms) == if DeleteAllFlows in ms then map[] else t
  {
    if ms != [] {
      TableWithoutMods(t, ms[..|ms| - 1]);
      assert ms == ms[..|ms| - 1] + [ms[|ms| - 1]];
    }
  }

  /** Some put has sent a barrier since the tables were cleared, or the switch has
    * processed the clearing, or it had no flows when the connection was made. */
  predicate ClearedOrPut(s: Sys)
    requires s.net.done <= |s.net.sent|
  {
    s.barriered || DeleteAllFlows in s.net.sent[..s.net.done] || s.net.flows0 == map[]
  }

  /** A put that reports at once is right exactly then. */
  lemma ReportAtOnceRight(run: seq<Sys>, i: nat, step: Step)
    requires IsRun(run) && i < |run| && Updating(run[i]) && Enabled(run[i], step) && ReportsAtOnce(run[i], step)
    ensures Do(run[i], step).ctl.curCfg == step.nbCfg && run[i].net.done <= |run[i].net.sent|
    ensures SwitchTable(run[i]) == step.desired <==> ClearedOrPut(run[i])
  {
    var s := run[i];
    InvAlways(run, i);
    EmptyBatch(s.ctl, step.batch, step.desired);
    if s.barriered {
      QuietFlows(s.net.flows0, s.net.sent, s.net.done);
    } else {
      NothingYetAlways(run, i);
      NoModAlways(run, i);
      TableWithoutMods(s.net.flows0, s.net.sent[..s.net.done]);
    }
  }

  /** In every run, a change of the reported number is backed by what the switch
    * has processed, unless a put of an empty table reports at once while no put
    * has sent a barrier since the clearing, which the switch has not processed
    * although it had flows. */
  lemma EveryReport(run: seq<Sys>, i: nat)
    requires IsRun(run) && i + 1 < |run| && run[i + 1].ctl.curCfg != run[i].ctl.curCfg
    ensures run[i].net.done <= |run[i].net.sent|
    ensures Backed(run[i + 1], run[i + 1].ctl.curCfg)
            || (PutRecord(run[i + 1].ctl.curCfg, map[]) in run[i + 1].log && !ClearedOrPut(run[i]))
  {
    var s, t := run[i], run[i + 1];
    InvAlways(run, i);
    var step := StepTo(run, i + 1);
    OnlyTheseReport(s, step);
    if ReportsAtOnce(s, step) {
      ReportAtOnceRight(run, i, step);
      if ClearedOrPut(s) {
        BackedAtOnce(s, t, step);
      } else {
        NothingYetAlways(run, i);
        EmptyBatch(s.ctl, step.batch, step.desired);
        assert t.log[|t.log| - 1] == PutRecord(step.nbCfg, map[]);
      }
    } else {
      AnswerReports(s);
      BackedLater(s, t.ctl.curCfg);
    }
  }

  /** So every report is backed as long as no put is of an empty table. */
  lemma BackedUnlessEmpty(run: seq<Sys>, i: nat)
    requires IsRun(run) && i + 1 < |run| && run[i + 1].ctl.curCfg != run[i].ctl.curCfg
    requires forall r :: r in run[i + 1].log ==> r.desired != map[]
    ensures Backed(run[i + 1], run[i + 1].ctl.curCfg)
  {
    EveryReport(run, i);
  }

  lemma BackedLater(s: Sys, nbCfg: int)
    requires Enabled(s, Run(true)) && Backed(s, nbCfg)
    ensures Backed(Do(s, Run(true)), nbCfg)
  {
    var t := Do(s, Run(true));
    var k: nat :| k <= s.net.done <= |s.net.sent|
      && PutRecord(nbCfg, FlowsAfter(s.net.flows0, s.net.sent[..k])) in s.log;
    assert t.net.sent[..k] == s.net.sent[..k];
    assert PutRecord(nbCfg, FlowsAfter(t.net.flows0, t.net.sent[..k])) in t.log;
  }

  lemma BackedAtOnce(s: Sys, t: Sys, step: Step)
    requires Enabled(s, step) && ReportsAtOnce(s, step) && t == Do(s, step)
    requires s.net.done <= |s.net.sent| && SwitchTable(s) == step.desired
    ensures Backed(t, t.ctl.curCfg)
  {
    PutMsgs(s.ctl, step.desired, step.nbCfg, step.batch);
    assert t.net.sent == s.net.sent;
    assert PutRecord(step.nbCfg, FlowsAfter(t.net.flows0, t.net.sent[..t.net.done])) in t.log;
  }

  /** One more step of a run. */
  lemma Longer(run: seq<Sys>, step: Step, t: Sys)
    requires IsRun(run) && Enabled(run[|run| - 1], step) && t == Do(run[|run| - 1], step)
    ensures IsRun(run + [t])
  {
    var r := run + [t];
    forall i | 0 <= i < |r| - 1 ensures Next(r[i], r[i + 1]) {
      if i < |run| - 1 {
        assert Next(run[i], run[i + 1]);
      } else {
        assert Enabled(r[i], step) && r[i + 1] == Do(r[i], step);
      }
    }
  }

  function EarlyState(state: ConnState, xid: nat, flows: FlowTable, seqno: nat, sent: seq<Msg>, done: nat,
                      replies: seq<Reply>): (r: Sys)
  {
    Sys(Ctl(state, xid, 0, xid + 1, map[], Ext.EMPTY, Ext.EMPTY, [], 0, []), seqno,
        Net(1, flows, map[], map[], sent, done, replies), false, [], false)
  }

  /** A run in which the controller sends its first request. */
  lemma RequestRun(flows: FlowTable) returns (run: seq<Sys>)
    ensures IsRun(run)
    ensures run[|run| - 1] == EarlyState(TlvTableRequested, 1, flows, 1, [TlvRequest(1)], 0, [])
  {
    var s0, s1 := EarlyState(New, 0, flows, 0, [], 0, []), EarlyState(New, 0, flows, 1, [], 0, []);
    var s2 := EarlyState(TlvTableRequested, 1, flows, 1, [TlvRequest(1)], 0, []);
    run := [s0];
    Longer(run, Notice, s1);
    run := run + [s1];
    Longer(run, Run(false), s2);
    run := run + [s2];
  }

  /** A run in which the switch answers that request and the controller sends its
    * clearing messages, which the switch has not processed yet. */
  lemma ShortRun(flows: FlowTable) returns (run: seq<Sys>)
    ensures IsRun(run)
    ensures var all := [TlvRequest(1), DeleteAllFlows, EntryDeleteAll(Group), EntryDeleteAll(Meter)];
            run[|run| - 1] == EarlyState(UpdateFlows, 1, flows, 1, all, 1, [])
  {
    var request, found := TlvRequest(1), TlvReply(1, Found);
    var all := [request, DeleteAllFlows, EntryDeleteAll(Group), EntryDeleteAll(Meter)];
    var s3 := EarlyState(TlvTableRequested, 1, flows, 1, [request], 1, [found]);
    var s4 := EarlyState(ClearFlows, 1, flows, 1, [request], 1, []);
    var s5 := EarlyState(UpdateFlows, 1, flows, 1, all, 1, []);
    run := RequestRun(flows);
    Longer(run, Process(Some(found)), s3);
    run := run + [s3];
    Longer(run, Run(true), s4);
    run := run + [s4];
    Longer(run, Run(false), s5);
    run := run + [s5];
  }

  /** The exception does occur: right after the clearing, a put of an empty
    * table reports its number while the switch still holds old flows. */
  lemma ReportTooEarly(flows: FlowTable, nbCfg: int) returns (run: seq<Sys>)
    ensures IsRun(run)
    ensures var s := run[|run| - 1];
            && s.ctl.curCfg == nbCfg && s.log == [PutRecord(nbCfg, map[])]
            && s.net.done <= |s.net.sent| && SwitchTable(s) == flows
  {
    run := ShortRun(flows);
    var s := run[|run| - 1];
    Longer(run, BeginBuild(false), s.(building := true));
    s := s.(building := true);
    run := run + [s];
    var nothing := Batch([], [], []);
    assert BatchMsgs(nothing, s.ctl.pending) == [];
    var put := DoPut(map[], nbCfg, nothing, false);
    var t := PutStep(s, map[], nbCfg, nothing, false);
    Longer(run, put, t);
    run := run + [t];
    assert t.net.sent == s.net.sent && t.net.sent[..1] == [TlvRequest(1)];
    FlowsUntouched(flows, [TlvRequest(1)]);
  }

  // ----- reported numbers never go back

  ghost predicate Increasing(us: seq<Update>) {
    forall i, j :: 0 <= i < j < |us| ==> us[i].nbCfg < us[j].nbCfg
  }

  function LastCfg(log: seq<PutRecord>): (r: int) {
    if log == [] then 0 else log[|log| - 1].nbCfg
  }

  /** Configuration numbers given to puts are not negative and never decrease. */
  ghost predicate NeverDecreases(log: seq<PutRecord>) {
    && (forall i :: 0 <= i < |log| ==> log[i].nbCfg >= 0)
    && (forall i, j :: 0 <= i < j < |log| ==> log[i].nbCfg <= log[j].nbCfg)
  }

  ghost predicate CfgOk(s: Sys) {
    && s.ctl.curCfg <= LastCfg(s.log) && Increasing(s.ctl.updates)
    && (s.ctl.updates != [] ==> Last(s.ctl.updates).nbCfg <= LastCfg(s.log))
  }

  lemma CfgAfterTurn(c: Ctl, m: Option<Reply>, log: seq<PutRecord>)
    requires c.curCfg <= LastCfg(log) && Increasing(c.updates)
    requires c.updates != [] ==> Last(c.updates).nbCfg <= LastCfg(log)
    ensures var c1 := Turn(c, m).0;
            && c.curCfg <= c1.curCfg <= LastCfg(log) && Increasing(c1.updates)
            && (c1.updates != [] ==> Last(c1.updates).nbCfg <= LastCfg(log))
  {
    if c.state == UpdateFlows {
      TurnUpdates(c, m);
    } else if c.state == ClearFlows {
      TurnClearing(c, m);
      OthersDoNotReport(c, m);
    } else {
      OthersDoNotReport(c, m);
      assert Turn(c, m).0.updates == c.updates;
    }
  }

  lemma TrackIncreasing(us: seq<Update>, xid: nat, nbCfg: int)
    requires Increasing(us) && (us != [] ==> Last(us).nbCfg <= nbCfg)
    ensures Increasing(Track(us, xid, nbCfg))
  {
    if us != [] && Last(us).nbCfg == nbCfg {
      assert Track(us, xid, nbCfg) == us[..|us| - 1] + [Update(xid, nbCfg)];
    }
  }

  lemma RelabelIncreasing(us: seq<Update>, nbCfg: int)
    requires Increasing(us) && us != [] && Last(us).nbCfg <= nbCfg
    ensures Increasing(us[..|us| - 1] + [Last(us).(nbCfg := nbCfg)])
  {
  }

  lemma CfgAfterPut(s: Sys, desired: FlowTable, nbCfg: int, batch: Batch, backlog: bool)
    requires CfgOk(s) && LastCfg(s.log) <= nbCfg
    ensures var t := PutStep(s, desired, nbCfg, batch, backlog); CfgOk(t) && s.ctl.curCfg <= t.ctl.curCfg
  {
    if CanPut(s.ctl, backlog) {
      TrackIncreasing(s.ctl.updates, s.ctl.nextXid, nbCfg);
      if s.ctl.updates != [] {
        RelabelIncreasing(s.ctl.updates, nbCfg);
      }
    }
  }

  lemma CfgKept(s: Sys, step: Step)
    requires CfgOk(s) && Enabled(s, step) && NeverDecreases(Do(s, step).log)
    ensures CfgOk(Do(s, step)) && s.ctl.curCfg <= Do(s, step).ctl.curCfg
  {
    var t := Do(s, step);
    match step
    case Run(receive) => CfgAfterTurn(s.ctl, if receive then Some(s.net.replies[0]) else None, s.log);
    case DoPut(desired, nbCfg, batch, backlog) =>
      if CanPut(s.ctl, backlog) {
        assert t.log[|t.log| - 1].nbCfg == nbCfg;
        assert s.log != [] ==> t.log[|s.log| - 1] == s.log[|s.log| - 1];
        CfgAfterPut(s, desired, nbCfg, batch, backlog);
      }
    case _ =>
  }

  lemma LogGrows(s: Sys, step: Step)
    requires Enabled(s, step)
    ensures s.log <= Do(s, step).log
  {
  }

  lemma PrefixOfPrefix(a: seq<PutRecord>, b: seq<PutRecord>, c: seq<PutRecord>)
    requires a <= b && b <= c
    ensures a <= c
  {
  }

  lemma {:induction false} LogPrefix(run: seq<Sys>, i: nat, j: nat)
    requires IsRun(run) && i <= j < |run|
    ensures run[i].log <= run[j].log
    decreases j
  {
    if i < j {
      LogPrefix(run, i, j - 1);
      var step := StepTo(run, j);
      LogGrows(run[j - 1], step);
      PrefixOfPrefix(run[i].log, run[j - 1].log, run[j].log);
    }
  }

  lemma PrefixNeverDecreases(a: seq<PutRecord>, b: seq<PutRecord>)
    requires a <= b && NeverDecreases(b)
    ensures NeverDecreases(a)
  {
    forall i | 0 <= i < |a| ensures a[i] == b[i] { }
  }

  /** If the numbers given to puts never decrease, the updates in flight have
    * strictly increasing numbers and the reported number never goes back. */
  lemma {:induction false} ReportsNeverGoBack(run: seq<Sys>, i: nat, j: nat)
    requires IsRun(run) && i <= j < |run| && NeverDecreases(run[j].log)
    ensures CfgOk(run[j]) && run[i].ctl.curCfg <= run[j].ctl.curCfg
    decreases j
  {
    if j > 0 {
      LogPrefix(run, j - 1, j);
      PrefixNeverDecreases(run[j - 1].log, run[j].log);
      ReportsNeverGoBack(run, if i < j then i else j - 1, j - 1);
      var step := StepTo(run, j);
      CfgKept(run[j - 1], step);
    }
  }

  // ----- conntrack zones

  /** The controller is about to receive the answer to a barrier that was sent
    * behind a flush of the entry's zone, by the same put and on this connection,
    * and the switch has processed both. */
  ghost predicate FlushConfirmed(s: Sys, p: Pending) {
    && s.seqno == s.net.epoch && s.net.done <= |s.net.sent|
    && s.net.replies != [] && s.net.replies[0] == BarrierReply(p.xid)
    && exists i: nat, j: nat :: FlushAt(s.net.sent, p.zone, p.xid, i, j) && j < s.net.done
  }

  /** An entry for an added zone that has been handed over to the database. */
  predicate HandedOver(p: Pending) {
    p.add && (p.state == DbQueued || p.state == DbSent)
  }

  lemma BarrierAnswered(s: Sys, p: Pending)
    requires NetOk(s) && ZonesOk(s) && Enabled(s, Run(true)) && s.net.replies[0] == BarrierReply(p.xid)
    requires p.(state := OfSent) in s.ctl.pending
    ensures FlushConfirmed(s, p)
  {
    assert s.net.replies[0] in s.net.replies;
    assert FlushSent(s.net.sent, p.zone, p.xid);
    var i: nat, j: nat :| FlushAt(s.net.sent, p.zone, p.xid, i, j);
    var k :| 0 <= k < s.net.done && s.net.sent[..s.net.done][k] == Barrier(p.xid);
    assert j == k;
  }

  /** Whatever the step, an added zone is handed over only on such an answer. */
  lemma HandOver(s: Sys, step: Step, p: Pending)
    requires Inv(s) && Enabled(s, step) && p in Do(s, step).ctl.pending && HandedOver(p)
    ensures (exists q :: q in s.ctl.pending && HandedOver(q) && q.zone == p.zone && q.xid == p.xid)
              || FlushConfirmed(s, p)
  {
    var t := Do(s, step);
    match step
    case Run(receive) =>
      TurnZones(s.ctl, if receive then Some(s.net.replies[0]) else None, p);
      if p !in s.ctl.pending {
        BarrierAnswered(s, p);
      }
    case DoPut(desired, nbCfg, batch, backlog) =>
      if CanPut(s.ctl, backlog) {
        PutZones(s.ctl, desired, nbCfg, batch, p);
        assert p in s.ctl.pending;
      }
    case Notice =>
      var i :| 0 <= i < |t.ctl.pending| && t.ctl.pending[i] == p;
      assert p == Requeued(s.ctl.pending[i]);
      assert p in s.ctl.pending;
    case CommitZones =>
      var i :| 0 <= i < |t.ctl.pending| && t.ctl.pending[i] == p;
      var q := s.ctl.pending[i];
      assert p == Committed(q);
      assert HandedOver(q);
    case _ =>
      assert p in s.ctl.pending;
  }

  /** In every run, an added zone that has been handed over to the database was
    * flushed before: at some earlier point the answer to a barrier behind its
    * flush arrived on the connection that both were sent on. */
  lemma {:induction false} HandedOverIsFlushed(run: seq<Sys>, i: nat, p: Pending)
    requires IsRun(run) && i < |run| && p in run[i].ctl.pending && HandedOver(p)
    ensures exists k :: 0 <= k < i && FlushConfirmed(run[k], p)
    decreases i
  {
    if i > 0 {
      InvAlways(run, i - 1);
      var step := StepTo(run, i);
      HandOver(run[i - 1], step, p);
      if !FlushConfirmed(run[i - 1], p) {
        var q :| q in run[i - 1].ctl.pending && HandedOver(q) && q.zone == p.zone && q.xid == p.xid;
        HandedOverIsFlushed(run, i - 1, q);
        var k :| 0 <= k < i - 1 && FlushConfirmed(run[k], q);
        assert FlushConfirmed(run[k], p);
      }
    }
  }

  // ----- ids

  /** In every run the ids are managed properly, and whenever the controller may
    * run its state machine, which may forget what is installed, nothing is
    * wanted. */
  lemma IdsAlways(run: seq<Sys>, i: nat, receive: bool)
    requires IsRun(run) && i < |run|
    ensures Ext.Valid(run[i].ctl.groups) && Ext.Valid(run[i].ctl.meters)
    ensures Enabled(run[i], Run(receive)) ==> run[i].ctl.groups.desired == map[] && run[i].ctl.meters.desired == map[]
  {
    InvAlways(run, i);
  }

  lemma StampedKept(s: Sys, step: Step)
    requires Stamped(s.ctl) && Enabled(s, step)
    ensures Stamped(Do(s, step).ctl)
  {
    var t := Do(s, step);
    match step
    case Run(receive) =>
      var m := if receive then Some(s.net.replies[0]) else None;
      TurnMsgs(s.ctl, m);
      forall p | p in t.ctl.pending && p.state == OfSent ensures p.xid != 0 {
        TurnZones(s.ctl, m, p);
      }
    case DoPut(desired, nbCfg, batch, backlog) =>
      if CanPut(s.ctl, backlog) {
        PutBarriers(s.ctl, desired, nbCfg, batch);
        forall p | p in t.ctl.pending && p.state == OfSent ensures p.xid != 0 {
          PutZones(s.ctl, desired, nbCfg, batch, p);
        }
      }
    case _ =>
  }

  /** In every run, no flush that was sent lacks a barrier. */
  lemma {:induction false} StampedAlways(run: seq<Sys>, i: nat)
    requires IsRun(run) && i < |run|
    ensures Stamped(run[i].ctl)
  {
    if i > 0 {
      StampedAlways(run, i - 1);
      var step := StepTo(run, i);
      StampedKept(run[i - 1], step);
    }
  }

  // ----- the controller's loop

  /** Where turns that send 'ms' and receive 'got' messages lead to. */
  predicate TurnsTo(s: Sys, c: Ctl, ms: seq<Msg>, got: nat, t: Sys) {
    got <= |s.net.replies| && t.ctl == c && t.net == s.net.(sent := s.net.sent + ms, replies := s.net.replies[got..])
  }

  lemma OneTurn(s: Sys)
    ensures var receive := s.net.replies != [];
            var (c, ms) := Turn(s.ctl, if receive then Some(s.net.replies[0]) else None);
            TurnsTo(s, c, ms, if receive then 1 else 0, DoRun(s, receive))
  {
    assert s.net.replies[0..] == s.net.replies;
  }

  lemma TurnsCompose(s: Sys, c: Ctl, ms: seq<Msg>, got: nat, t: Sys, c1: Ctl, ms1: seq<Msg>, got1: nat, u: Sys)
    requires TurnsTo(s, c, ms, got, t) && TurnsTo(t, c1, ms1, got1, u)
    ensures TurnsTo(s, c1, ms + ms1, got + got1, u)
  {
    assert s.net.sent + ms + ms1 == s.net.sent + (ms + ms1);
    assert s.net.replies[got..][got1..] == s.net.replies[got + got1..];
  }

  /** Where up to 'n' turns of the loop lead to. */
  predicate TurnsFrom(s: Sys, n: nat, t: Sys) {
    var (c, ms, got) := Turns(s.ctl, s.net.replies, n);
    TurnsTo(s, c, ms, got, t)
  }

  /** The loop goes on after this turn. */
  predicate Progress(s: Sys, t: Sys) {
    t.ctl.state != s.ctl.state || s.net.replies != []
  }

  lemma NoTurn(s: Sys)
    ensures TurnsFrom(s, 0, s)
  {
    assert s.net.sent + [] == s.net.sent && s.net.replies[0..] == s.net.replies;
  }

  lemma LastTurn(s: Sys, n: nat)
    requires n > 0
    ensures var t := DoRun(s, s.net.replies != []); !Progress(s, t) ==> TurnsFrom(s, n, t)
  {
    OneTurn(s);
  }

  lemma MoreTurns(s: Sys, n: nat, u: Sys)
    requires n > 0
    requires var t := DoRun(s, s.net.replies != []); Progress(s, t) && TurnsFrom(t, n - 1, u)
    ensures TurnsFrom(s, n, u)
  {
    var receive := s.net.replies != [];
    var t := DoRun(s, receive);
    var got := if receive then 1 else 0;
    OneTurn(s);
    var (c, ms) := Turn(s.ctl, if receive then Some(s.net.replies[0]) else None);
    var (c1, ms1, got1) := Turns(t.ctl, t.net.replies, n - 1);
    TurnsCompose(s, c, ms, got, t, c1, ms1, got1, u);
  }

  /** States, each reached from the one before by a step. */
  ghost predicate Steps(path: seq<Sys>, s: Sys, t: Sys) {
    && path != [] && path[0] == s && path[|path| - 1] == t
    && forall i :: 0 <= i < |path| - 1 ==> Next(path[i], path[i + 1])
  }

  lemma FirstStep(s: Sys, step: Step, t: Sys, path: seq<Sys>, u: Sys)
    requires Enabled(s, step) && t == Do(s, step) && Steps(path, t, u)
    ensures Steps([s] + path, s, u)
  {
    var all := [s] + path;
    forall i | 0 <= i < |all| - 1 ensures Next(all[i], all[i + 1]) {
      if i > 0 {
        assert Next(path[i - 1], path[i - 1 + 1]);
      }
    }
  }

  /** Any number of turns, as ofctrl_run() takes them, are steps of the system. */
  lemma {:induction false} TurnsAreSteps(s: Sys, n: nat) returns (path: seq<Sys>, t: Sys)
    requires !s.building && s.seqno == s.net.epoch
    ensures Steps(path, s, t) && TurnsFrom(s, n, t)
    decreases n
  {
    if n == 0 {
      path, t := [s], s;
      NoTurn(s);
    } else {
      var receive := s.net.replies != [];
      var next := DoRun(s, receive);
      if Progress(s, next) {
        path, t := TurnsAreSteps(next, n - 1);
        MoreTurns(s, n, t);
      } else {
        path, t := [next], next;
        LastTurn(s, n);
      }
      FirstStep(s, Run(receive), next, path, t);
      path := [s] + path;
    }
  }

  /** So they go on from any run. */
  lemma TurnsGoOn(run: seq<Sys>, n: nat) returns (run1: seq<Sys>)
    requires IsRun(run)
    requires var s := run[|run| - 1]; !s.building && s.seqno == s.net.epoch
    ensures IsRun(run1) && |run| <= |run1| && run1[..|run|] == run
    ensures TurnsFrom(run[|run| - 1], n, run1[|run1| - 1])
  {
    var path, t := TurnsAreSteps(run[|run| - 1], n);
    run1 := run + path[1..];
    RunThenSteps(run, path, t);
  }

  lemma RunThenSteps(run: seq<Sys>, path: seq<Sys>, t: Sys)
    requires IsRun(run) && Steps(path, run[|run| - 1], t)
    ensures var run1 := run + path[1..]; IsRun(run1) && run1[..|run|] == run && run1[|run1| - 1] == t
  {
    var run1, m := run + path[1..], |run| - 1;
    forall i | 0 <= i < |run1| - 1 ensures Next(run1[i], run1[i + 1]) {
      if i < m {
        assert Next(run[i], run[i + 1]);
      } else {
        assert Next(path[i - m], path[i - m + 1]);
      }
    }
  }
}
