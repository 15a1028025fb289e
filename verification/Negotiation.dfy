/** That a connection gets to where flows are updated (controller/ofctrl.c): whenever
  * the switch has processed and answered everything, the negotiation is over. */
module Negotiation {
  import opened Util
  import opened OpenFlow
  import opened Controller
  import opened SwitchSync
  import opened SwitchGuarantees
  import opened FlushAnswers
  import opened PutReports

  // ----- what is awaited

  /** The request has not been processed yet, or its answer has not been received. */
  ghost predicate RequestPending(net: Net, xid: nat)
    requires net.done <= |net.sent|
  {
    TlvRequest(xid) in net.sent[net.done..] || exists r :: r in net.replies && r.xid == xid
  }

  /** Whatever is awaited during the negotiation is still to come. */
  ghost predicate AwaitsAnswer(s: Sys) {
    && s.net.done <= |s.net.sent|
    && (s.seqno != s.net.epoch ==> s.net.sent == [])
    && (s.seqno == s.net.epoch && s.ctl.state == TlvTableRequested ==> RequestPending(s.net, s.ctl.xid))
    && (s.seqno == s.net.epoch && s.ctl.state == TlvTableModSent ==> s.ctl.xid2 in Unanswered(s.net))
  }

  /** The switch answers the request, if it processes one. */
  predicate Answers(s: Sys, step: Step) {
    step.Process? && s.net.done < |s.net.sent| && s.net.sent[s.net.done].TlvRequest? ==> step.answer.Some?
  }

  lemma RequestSent(net: Net, ms: seq<Msg>, xid: nat)
    requires net.done <= |net.sent| && TlvRequest(xid) in ms
    ensures RequestPending(Send(net, ms), xid)
  {
    assert (net.sent + ms)[net.done..] == net.sent[net.done..] + ms;
  }

  lemma RequestStays(net: Net, ms: seq<Msg>, receive: bool, xid: nat)
    requires net.done <= |net.sent| && RequestPending(net, xid)
    requires receive ==> net.replies != [] && net.replies[0].xid != xid
    ensures RequestPending(Send(net.(replies := if receive then net.replies[1..] else net.replies), ms), xid)
  {
    assert (net.sent + ms)[net.done..] == net.sent[net.done..] + ms;
    if r :| r in net.replies && r.xid == xid {
      assert net.replies == [net.replies[0]] + net.replies[1..];
    }
  }

  lemma RequestProcessed(net: Net, answer: Option<Reply>, xid: nat)
    requires net.done < |net.sent| && AnswerOk(net.sent[net.done], answer) && RequestPending(net, xid)
    requires net.sent[net.done].TlvRequest? ==> answer.Some?
    ensures var rs := if answer.Some? then [answer.value] else [];
            RequestPending(net.(done := net.done + 1, replies := net.replies + rs), xid)
  {
    var rs := if answer.Some? then [answer.value] else [];
    assert net.sent[net.done..] == [net.sent[net.done]] + net.sent[net.done + 1..];
    if r :| r in net.replies && r.xid == xid {
      assert r in net.replies + rs;
    } else if net.sent[net.done] == TlvRequest(xid) {
      assert answer.value in net.replies + rs;
    }
  }

  /** A turn that leaves the controller waiting for the answer to a request. */
  lemma TurnRequested(c: Ctl, m: Option<Reply>)
    requires Turn(c, m).0.state == TlvTableRequested
    ensures var (c1, ms) := Turn(c, m);
            if c.state == New then TlvRequest(c1.xid) in ms
            else c.state == TlvTableRequested && c1.xid == c.xid && (m.Some? ==> m.value.xid != c.xid)
  {
  }

  /** And one that leaves it waiting for the barrier behind the modification. */
  lemma TurnModSent(c: Ctl, m: Option<Reply>)
    requires Turn(c, m).0.state == TlvTableModSent
    ensures var (c1, ms) := Turn(c, m);
            if c.state == TlvTableModSent then c1.xid2 == c.xid2 && (m.Some? ==> m.value.xid != c.xid2)
            else Barrier(c1.xid2) in ms && TlvMod(c1.xid) in ms
  {
  }

  lemma {:induction false} BarrierListed(ms: seq<Msg>, x: nat)
    requires Barrier(x) in ms
    ensures x in BarrierXids(ms)
  {
    if ms[0] != Barrier(x) {
      assert ms == [ms[0]] + ms[1..];
      BarrierListed(ms[1..], x);
    }
  }

  lemma AwaitsAfterRun(s: Sys, receive: bool)
    requires AwaitsAnswer(s) && s.seqno == s.net.epoch && (receive ==> s.net.replies != [])
    ensures AwaitsAnswer(DoRun(s, receive))
  {
    var m := if receive then Some(s.net.replies[0]) else None;
    var (c, ms) := Turn(s.ctl, m);
    var net := s.net.(replies := if receive then s.net.replies[1..] else s.net.replies);
    if c.state == TlvTableRequested {
      TurnRequested(s.ctl, m);
      if s.ctl.state == New {
        RequestSent(net, ms, c.xid);
      } else {
        RequestStays(s.net, ms, receive, c.xid);
      }
    } else if c.state == TlvTableModSent {
      TurnModSent(s.ctl, m);
      UnansweredSend(net, ms);
      if s.ctl.state == TlvTableModSent {
        if receive {
          UnansweredReceive(s.net);
        }
      } else {
        BarrierListed(ms, c.xid2);
      }
    }
  }

  lemma AwaitsKept(s: Sys, step: Step)
    requires AwaitsAnswer(s) && NoticedOk(s) && Enabled(s, step) && Answers(s, step)
    ensures AwaitsAnswer(Do(s, step))
  {
    match step
    case Process(answer) =>
      UnansweredProcess(s.net, answer);
      if s.seqno == s.net.epoch && s.ctl.state == TlvTableRequested {
        RequestProcessed(s.net, answer, s.ctl.xid);
      }
    case Unsolicited(reply) =>
      UnansweredReply(s.net, reply);
      if s.seqno == s.net.epoch && s.ctl.state == TlvTableRequested {
        assert forall r :: r in s.net.replies ==> r in s.net.replies + [reply];
      }
    case Run(receive) => AwaitsAfterRun(s, receive);
    case DoPut(desired, nbCfg, batch, backlog) => PutMsgs(s.ctl, desired, nbCfg, batch);
    case AssignId(kind, name) => AssignKeeps(s.ctl, kind, name);
    case _ =>
  }

  /** In the run, every request that the switch has processed was answered. */
  ghost predicate RequestsAnswered(run: seq<Sys>) {
    forall i :: 0 <= i < |run| - 1 ==> AnswersNext(run[i], run[i + 1])
  }

  ghost predicate AnswersNext(s: Sys, t: Sys) {
    && t.net.epoch == s.net.epoch && t.net.done == s.net.done + 1 && s.net.done < |s.net.sent|
    && s.net.sent[s.net.done].TlvRequest?
    ==> |t.net.replies| > |s.net.replies|
  }

  lemma {:induction false} AwaitsAlways(run: seq<Sys>, i: nat)
    requires IsRun(run) && i < |run| && RequestsAnswered(run)
    ensures AwaitsAnswer(run[i])
  {
    if i > 0 {
      AwaitsAlways(run, i - 1);
      NoticedAlways(run, i - 1);
      var step := StepTo(run, i);
      assert AnswersNext(run[i - 1], run[i - 1 + 1]);
      AwaitsKept(run[i - 1], step);
    }
  }

  // ----- races

  /** No other controller was faster. */
  ghost predicate NoRace(run: seq<Sys>) {
    forall i :: 0 <= i < |run| ==> NoRaceIn(run[i].net.replies)
  }

  predicate NoRaceIn(rs: seq<Reply>) {
    forall r :: r in rs ==> !(r.ErrorReply? && r.race)
  }

  /** The first turn on a connection leaves the first state for good. */
  predicate Started(s: Sys) {
    s.seqno == s.net.epoch && s.ctl.state == New ==> s.net.sent == []
  }

  lemma TurnStarts(c: Ctl, m: Option<Reply>)
    requires m.Some? ==> NoRaceIn([m.value])
    ensures Turn(c, m).0.state != New
  {
    assert m.Some? ==> m.value in [m.value];
  }

  lemma StartedKept(s: Sys, step: Step)
    requires Started(s) && AwaitsAnswer(s) && NoticedOk(s) && Enabled(s, step) && NoRaceIn(s.net.replies)
    ensures Started(Do(s, step))
  {
    match step
    case Run(receive) =>
      TurnStarts(s.ctl, if receive then Some(s.net.replies[0]) else None);
    case DoPut(desired, nbCfg, batch, backlog) => PutMsgs(s.ctl, desired, nbCfg, batch);
    case AssignId(kind, name) => AssignKeeps(s.ctl, kind, name);
    case _ =>
  }

  lemma {:induction false} StartedAlways(run: seq<Sys>, i: nat)
    requires IsRun(run) && i < |run| && RequestsAnswered(run) && NoRace(run)
    ensures Started(run[i])
  {
    if i > 0 {
      StartedAlways(run, i - 1);
      AwaitsAlways(run, i - 1);
      NoticedAlways(run, i - 1);
      var step := StepTo(run, i);
      StartedKept(run[i - 1], step);
    }
  }

  // ----- the tables are cleared

  predicate ClearingSent(ms: seq<Msg>) {
    DeleteAllFlows in ms && EntryDeleteAll(Group) in ms && EntryDeleteAll(Meter) in ms
  }

  predicate Cleared(s: Sys) {
    Updating(s) ==> ClearingSent(s.net.sent)
  }

  lemma ClearedKept(s: Sys, step: Step)
    requires Cleared(s) && NoticedOk(s) && Enabled(s, step)
    ensures Cleared(Do(s, step))
  {
    match step
    case Run(receive) =>
      var m := if receive then Some(s.net.replies[0]) else None;
      if s.ctl.state == ClearFlows {
        TurnClearing(s.ctl, m);
      } else if s.ctl.state != UpdateFlows {
        TurnNegotiating(s.ctl, m);
      }
    case DoPut(desired, nbCfg, batch, backlog) => PutMsgs(s.ctl, desired, nbCfg, batch);
    case AssignId(kind, name) => AssignKeeps(s.ctl, kind, name);
    case _ =>
  }

  /** In every run, flows are updated only after the tables were cleared. */
  lemma {:induction false} ClearedAlways(run: seq<Sys>, i: nat)
    requires IsRun(run) && i < |run|
    ensures Cleared(run[i])
  {
    if i > 0 {
      ClearedAlways(run, i - 1);
      NoticedAlways(run, i - 1);
      var step := StepTo(run, i);
      ClearedKept(run[i - 1], step);
    }
  }

  // ----- progress

  /** Puts may be sent, and the tables were cleared before. */
  predicate ReadyForPuts(s: Sys) {
    Updating(s) && CanPut(s.ctl, false) && ClearingSent(s.net.sent)
  }

  /** When all is quiet, the negotiation is not waiting for anything: it is to start,
    * or start again, or to clear the tables, or over. */
  lemma QuietIsBetween(run: seq<Sys>, i: nat)
    requires IsRun(run) && i < |run| && RequestsAnswered(run)
    requires Quiet(run[i]) && run[i].seqno == run[i].net.epoch
    ensures run[i].ctl.state == New || run[i].ctl.state == ClearFlows || run[i].ctl.state == UpdateFlows
  {
    AwaitsAlways(run, i);
    var s := run[i];
    assert s.net.sent[s.net.done..] == [] && Unanswered(s.net) == [];
  }

  /** The next turn then sends a request, or gets the controller to where puts may be
    * sent, if it is not there already. */
  lemma NextTurn(run: seq<Sys>, i: nat)
    requires IsRun(run) && i < |run| && RequestsAnswered(run)
    requires Quiet(run[i]) && Enabled(run[i], Run(false))
    ensures var s := run[i];
            var t := Do(s, Run(false));
            if s.ctl.state == New then exists x :: t.net.sent == s.net.sent + [TlvRequest(x)]
            else ReadyForPuts(t)
  {
    var s := run[i];
    QuietIsBetween(run, i);
    ClearedAlways(run, i);
    if s.ctl.state == New {
      assert Do(s, Run(false)).net.sent == s.net.sent + [TlvRequest(s.ctl.nextXid)];
    } else if s.ctl.state == ClearFlows {
      TurnClearing(s.ctl, None);
    } else {
      TurnUpdating(s.ctl, None);
    }
  }

  /** On a connection where the controller has sent something, every request was
    * answered and no other controller was faster: when the switch has processed
    * everything and every answer was received, the controller is at most a turn away
    * from where puts may be sent. */
  lemma GetsToUpdate(run: seq<Sys>, i: nat)
    requires IsRun(run) && i < |run| && RequestsAnswered(run) && NoRace(run)
    requires Quiet(run[i]) && Enabled(run[i], Run(false)) && run[i].net.sent != []
    ensures ReadyForPuts(Do(run[i], Run(false)))
  {
    StartedAlways(run, i);
    NextTurn(run, i);
  }

  /** If the switch has a free slot, it is asked to use it. */
  lemma FreeSlotTaken(s: Sys)
    requires Enabled(s, Run(true)) && s.ctl.state == TlvTableRequested
    requires s.net.replies[0] == TlvReply(s.ctl.xid, FreeSlot)
    ensures var t := Do(s, Run(true));
            exists x, y :: x != y && t.net.sent == s.net.sent + [TlvMod(x), Barrier(y)]
  {
    var n := s.ctl.nextXid;
    assert Do(s, Run(true)).net.sent == s.net.sent + [TlvMod(n), Barrier(n + 1)];
  }

  /** An echo request is answered, unless it carries an id that an answer is awaited
    * for. */
  lemma EchoAnswered(s: Sys)
    requires Enabled(s, Run(true)) && s.net.replies[0].EchoRequest?
    requires s.ctl.state == UpdateFlows || s.ctl.state == ClearFlows
             || s.net.replies[0].xid !in {s.ctl.xid, s.ctl.xid2, s.ctl.nextXid}
    ensures EchoReply in Do(s, Run(true)).net.sent[|s.net.sent|..]
  {
    var t := Do(s, Run(true));
    var ms := Turn(s.ctl, Some(s.net.replies[0])).1;
    assert t.net.sent[|s.net.sent|..] == ms;
    EchoInTurn(s.ctl, s.net.replies[0]);
  }

  lemma EchoInTurn(c: Ctl, m: Reply)
    requires m.EchoRequest?
    requires c.state == UpdateFlows || c.state == ClearFlows || m.xid !in {c.xid, c.xid2, c.nextXid}
    ensures EchoReply in Turn(c, Some(m)).1
  {
    var (c1, ms1) := RunState(c);
    assert Recv(c1, m) == (c1, [EchoReply]);
    assert Turn(c, Some(m)).1 == ms1 + [EchoReply];
  }

  /** A race with another controller starts the negotiation over. */
  lemma RaceStartsOver(s: Sys)
    requires Enabled(s, Run(true)) && s.ctl.state == TlvTableModSent
    requires s.net.replies[0].ErrorReply? && s.net.replies[0].race
    requires s.net.replies[0].xid == s.ctl.xid && s.ctl.xid != s.ctl.xid2
    ensures var t := Do(s, Run(true));
            Enabled(t, Run(false)) && exists x :: Do(t, Run(false)).net.sent == s.net.sent + [TlvRequest(x)]
  {
    var t := Do(s, Run(true));
    assert t.ctl.state == New && t.net.sent == s.net.sent + [];
    assert Do(t, Run(false)).net.sent == s.net.sent + [TlvRequest(t.ctl.nextXid)];
  }

  /** ofctrl_run() receives all it is given, up to its limit of turns; if there are
    * turns left, it does not stop where it has something to send. */
  lemma {:induction false} TurnsSettle(c: Ctl, replies: seq<Reply>, n: nat)
    ensures var (c1, _, got) := Turns(c, replies, n);
            && got == (if n < |replies| then n else |replies|)
            && (n > |replies| ==> c1.state != New && c1.state != ClearFlows)
    decreases n
  {
    if n > 0 {
      var m := if replies != [] then Some(replies[0]) else None;
      var c1 := Turn(c, m).0;
      var got := if replies != [] then 1 else 0;
      if c1.state != c.state || got == 1 {
        TurnsSettle(c1, replies[got..], n - 1);
      }
    }
  }
}
