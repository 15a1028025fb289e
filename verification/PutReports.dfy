/** That configuration numbers are reported (controller/ofctrl.c): once the switch has
  * processed and answered everything, the number of the last put is. */
module PutReports {
  import opened Util
  import opened OpenFlow
  import opened Controller
  import opened SwitchSync
  import opened SwitchGuarantees
  import opened FlushAnswers

  /** Everything that was sent has been processed, and every answer received. */
  predicate Quiet(s: Sys) {
    s.net.done == |s.net.sent| && s.net.replies == []
  }

  // ----- updates in flight

  /** The last update carries the number of the last put. */
  ghost predicate LastIsLatest(s: Sys) {
    Updating(s) && s.ctl.updates != [] ==> Last(s.ctl.updates).nbCfg == LastCfg(s.log)
  }

  lemma PutIsLatest(s: Sys, step: Step)
    requires Enabled(s, step) && step.DoPut? && CanPut(s.ctl, step.backlog)
    ensures var t := Do(s, step);
            && t.log != [] && LastCfg(t.log) == step.nbCfg
            && (t.ctl.updates != [] ==> Last(t.ctl.updates).nbCfg == step.nbCfg)
            && (t.ctl.updates == [] ==> t.ctl.curCfg == step.nbCfg)
  {
  }

  lemma LastIsLatestKept(s: Sys, step: Step)
    requires LastIsLatest(s) && NoticedOk(s) && Enabled(s, step)
    ensures LastIsLatest(Do(s, step))
  {
    match step
    case Run(receive) =>
      var m := if receive then Some(s.net.replies[0]) else None;
      if s.ctl.state == UpdateFlows {
        TurnUpdates(s.ctl, m);
      } else if s.ctl.state == ClearFlows {
        TurnClearing(s.ctl, m);
      } else {
        TurnNegotiating(s.ctl, m);
      }
    case DoPut(_, _, _, backlog) =>
      if CanPut(s.ctl, backlog) {
        PutIsLatest(s, step);
      }
    case AssignId(kind, name) => AssignKeeps(s.ctl, kind, name);
    case _ =>
  }

  /** In every run, while flows are updated, the last update in flight carries the
    * number of the last put that was carried out. */
  lemma {:induction false} LastIsLatestAlways(run: seq<Sys>, i: nat)
    requires IsRun(run) && i < |run|
    ensures LastIsLatest(run[i])
  {
    if i > 0 {
      LastIsLatestAlways(run, i - 1);
      NoticedAlways(run, i - 1);
      var step := StepTo(run, i);
      LastIsLatestKept(run[i - 1], step);
    }
  }

  // ----- reports

  /** No turn takes back a number that was reported. */
  lemma TurnsNeverGoBack(s: Sys, receive: bool)
    requires Enabled(s, Run(receive))
    ensures Do(s, Run(receive)).ctl.curCfg >= s.ctl.curCfg
  {
    var m := if receive then Some(s.net.replies[0]) else None;
    if s.ctl.state == UpdateFlows {
      TurnUpdates(s.ctl, m);
    } else {
      OthersDoNotReport(s.ctl, m);
    }
  }

  /** A put was carried out, and its number or a later one is reported unless an
    * update is in flight. */
  predicate Reported(s: Sys) {
    s.ctl.updates == [] ==> s.ctl.curCfg >= LastCfg(s.log)
  }

  lemma ReportedKept(s: Sys, step: Step)
    requires Enabled(s, step) && Updating(s) && Updating(Do(s, step)) && Reported(s) && LastIsLatest(s)
    ensures Reported(Do(s, step))
  {
    match step
    case Run(receive) => TurnUpdates(s.ctl, if receive then Some(s.net.replies[0]) else None);
    case DoPut(_, _, _, backlog) =>
      if CanPut(s.ctl, backlog) {
        PutIsLatest(s, step);
      }
    case AssignId(kind, name) => AssignKeeps(s.ctl, kind, name);
    case _ =>
  }

  /** The steps after number 'k' of the run update flows on one connection. */
  ghost predicate UpdatingFrom(run: seq<Sys>, k: nat, i: nat) {
    i < |run| && forall j :: k < j <= i ==> Updating(run[j])
  }

  /** Step 'k' is a put that is carried out. */
  ghost predicate PutAt(run: seq<Sys>, k: nat) {
    k + 1 < |run| && |run[k].log| < |run[k + 1].log|
  }

  lemma OnlyPutsAreLogged(s: Sys, step: Step)
    requires Enabled(s, step) && |s.log| < |Do(s, step).log|
    ensures step.DoPut? && CanPut(s.ctl, step.backlog)
  {
  }

  lemma ReportedAtPut(run: seq<Sys>, k: nat)
    requires IsRun(run) && PutAt(run, k)
    ensures Reported(run[k + 1])
  {
    var step := StepTo(run, k + 1);
    OnlyPutsAreLogged(run[k], step);
    PutIsLatest(run[k], step);
  }

  lemma ReportedOn(run: seq<Sys>, i: nat)
    requires IsRun(run) && 0 < i < |run| && Updating(run[i - 1]) && Updating(run[i])
    requires Reported(run[i - 1]) && LastIsLatest(run[i - 1])
    ensures Reported(run[i])
  {
    var step := StepTo(run, i);
    ReportedKept(run[i - 1], step);
  }

  lemma {:induction false} ReportedSince(run: seq<Sys>, k: nat, i: nat)
    requires IsRun(run) && PutAt(run, k) && k < i && UpdatingFrom(run, k, i)
    ensures Reported(run[i])
    decreases i
  {
    if i == k + 1 {
      ReportedAtPut(run, k);
    } else {
      ReportedSince(run, k, i - 1);
      LastIsLatestAlways(run, i - 1);
      ReportedOn(run, i);
    }
  }

  lemma NoneWaits(us: seq<Update>, xs: seq<nat>)
    requires AllWait(us, xs)
    ensures xs == [] ==> us == []
  {
    if us != [] {
      assert us[0].xid in xs;
    }
  }

  /** When all is quiet, nothing is in flight. */
  lemma QuietMeansAnswered(run: seq<Sys>, i: nat)
    requires IsRun(run) && i < |run| && Updating(run[i]) && Quiet(run[i])
    ensures run[i].ctl.updates == []
  {
    WaitingAlways(run, i);
    var s := run[i];
    assert s.net.sent[s.net.done..] == [] && Unanswered(s.net) == [];
    NoneWaits(s.ctl.updates, Unanswered(s.net));
  }

  /** A put is carried out, and flows go on being updated on that connection.  When
    * the switch has processed everything and every answer was received, the number
    * of the last put is reported, or a later one; exactly that number, if the
    * numbers of puts never decrease. */
  lemma PutIsReported(run: seq<Sys>, k: nat, i: nat)
    requires IsRun(run) && PutAt(run, k) && k < i && UpdatingFrom(run, k, i) && Quiet(run[i])
    ensures run[i].ctl.curCfg >= LastCfg(run[i].log)
    ensures NeverDecreases(run[i].log) ==> run[i].ctl.curCfg == LastCfg(run[i].log)
  {
    ReportedSince(run, k, i);
    QuietMeansAnswered(run, i);
    if NeverDecreases(run[i].log) {
      ReportsNeverGoBack(run, i, i);
    }
  }

  // ----- which updates stay in flight

  /** Of the updates in flight, a put with messages leaves exactly those with a
    * smaller number, in order, and adds its own. */
  lemma {:induction false} TrackExact(us: seq<Update>, xid: nat, nbCfg: int) returns (n: nat)
    requires Increasing(us)
    ensures n <= |us| && Track(us, xid, nbCfg) == us[..n] + [Update(xid, nbCfg)]
    ensures forall i :: 0 <= i < |us| ==> (i < n <==> us[i].nbCfg < nbCfg)
    decreases |us|
  {
    if us == [] {
      n := 0;
    } else {
      var init, last := us[..|us| - 1], us[|us| - 1];
      if nbCfg < last.nbCfg {
        n := TrackExact(init, xid, nbCfg);
        assert init[..n] == us[..n];
      } else if nbCfg == last.nbCfg {
        n := |us| - 1;
      } else {
        n := |us|;
        assert us[..n] == us;
      }
    }
  }
}
