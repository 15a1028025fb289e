/** Flushes of conntrack zones are not stranded (controller/ofctrl.c): the answer to
  * the barrier behind a flush is still to come, and hands the zone over. */
module FlushAnswers {
  import opened Util
  import opened OpenFlow
  import opened Controller
  import opened SwitchSync

  // ----- barriers whose answer has not been received

  function ReplyXids(rs: seq<Reply>): (r: seq<nat>) {
    if rs == [] then [] else (if rs[0].BarrierReply? then [rs[0].xid] else []) + ReplyXids(rs[1..])
  }

  function BarrierXids(ms: seq<Msg>): (r: seq<nat>) {
    if ms == [] then [] else (if ms[0].Barrier? then [ms[0].xid] else []) + BarrierXids(ms[1..])
  }

  /** In the order of their answers: those on the way, and those to be sent. */
  function Unanswered(net: Net): (r: seq<nat>)
    requires net.done <= |net.sent|
  {
    ReplyXids(net.replies) + BarrierXids(net.sent[net.done..])
  }

  lemma Associative(a: seq<nat>, b: seq<nat>, c: seq<nat>)
    ensures a + (b + c) == a + b + c
  {
  }

  lemma {:induction false} ReplyXidsConcat(a: seq<Reply>, b: seq<Reply>)
    ensures ReplyXids(a + b) == ReplyXids(a) + ReplyXids(b)
  {
    if a == [] {
      assert a + b == b;
    } else {
      var head := if a[0].BarrierReply? then [a[0].xid] else [];
      assert (a + b)[1..] == a[1..] + b && (a + b)[0] == a[0];
      ReplyXidsConcat(a[1..], b);
      Associative(head, ReplyXids(a[1..]), ReplyXids(b));
    }
  }

  lemma {:induction false} BarrierXidsConcat(a: seq<Msg>, b: seq<Msg>)
    ensures BarrierXids(a + b) == BarrierXids(a) + BarrierXids(b)
  {
    if a == [] {
      assert a + b == b;
    } else {
      var head := if a[0].Barrier? then [a[0].xid] else [];
      assert (a + b)[1..] == a[1..] + b && (a + b)[0] == a[0];
      BarrierXidsConcat(a[1..], b);
      Associative(head, BarrierXids(a[1..]), BarrierXids(b));
    }
  }

  lemma {:induction false} NoBarriers(ms: seq<Msg>)
    requires forall i :: 0 <= i < |ms| ==> !ms[i].Barrier?
    ensures BarrierXids(ms) == []
  {
    if ms != [] {
      NoBarriers(ms[1..]);
    }
  }

  /** More is sent. */
  lemma UnansweredSend(net: Net, ms: seq<Msg>)
    requires net.done <= |net.sent|
    ensures Unanswered(Send(net, ms)) == Unanswered(net) + BarrierXids(ms)
  {
    assert (net.sent + ms)[net.done..] == net.sent[net.done..] + ms;
    BarrierXidsConcat(net.sent[net.done..], ms);
  }

  /** The switch processes a message: its answer takes its place. */
  lemma UnansweredProcess(net: Net, answer: Option<Reply>)
    requires net.done < |net.sent| && AnswerOk(net.sent[net.done], answer)
    ensures var rs := if answer.Some? then [answer.value] else [];
            Unanswered(net.(done := net.done + 1, replies := net.replies + rs)) == Unanswered(net)
  {
    var rs := if answer.Some? then [answer.value] else [];
    var m, later := net.sent[net.done], net.sent[net.done + 1..];
    ReplyXidsConcat(net.replies, rs);
    assert net.sent[net.done..] == [m] + later;
    BarrierXidsConcat([m], later);
    assert BarrierXids([m]) == ReplyXids(rs);
  }

  lemma UnansweredReply(net: Net, reply: Reply)
    requires net.done <= |net.sent| && !reply.BarrierReply?
    ensures Unanswered(net.(replies := net.replies + [reply])) == Unanswered(net)
  {
    ReplyXidsConcat(net.replies, [reply]);
    assert ReplyXids([reply]) == [];
  }

  /** The first answer is received. */
  lemma UnansweredReceive(net: Net)
    requires net.done <= |net.sent| && net.replies != []
    ensures var rest := Unanswered(net.(replies := net.replies[1..]));
            var m := net.replies[0];
            Unanswered(net) == (if m.BarrierReply? then [m.xid] else []) + rest
  {
  }

  // ----- the invariant

  predicate Ascending(xs: seq<nat>, bound: nat) {
    && (forall i :: 0 <= i < |xs| ==> xs[i] < bound)
    && (forall i, j :: 0 <= i < j < |xs| ==> xs[i] < xs[j])
  }

  ghost predicate AllWait(us: seq<Update>, xs: seq<nat>) {
    forall i :: 0 <= i < |us| ==> us[i].xid in xs
  }

  ghost predicate XidsAscend(us: seq<Update>) {
    forall i, j :: 0 <= i < j < |us| ==> us[i].xid < us[j].xid
  }

  /** The updates in flight wait for answers that are still to come, in order. */
  ghost predicate UpdatesWait(us: seq<Update>, xs: seq<nat>) {
    AllWait(us, xs) && XidsAscend(us)
  }

  /** So do the flushes that were sent, and none is later than the last update. */
  ghost predicate FlushesWait(ps: seq<Pending>, us: seq<Update>, xs: seq<nat>) {
    forall p :: p in ps && p.state == OfSent ==> p.xid in xs && us != [] && p.xid <= Last(us).xid
  }

  predicate NoneSent(ps: seq<Pending>) {
    forall p :: p in ps ==> p.state != OfSent
  }

  ghost predicate Waits(c: Ctl, xs: seq<nat>) {
    if c.state == UpdateFlows then UpdatesWait(c.updates, xs) && FlushesWait(c.pending, c.updates, xs)
    else NoneSent(c.pending)
  }

  ghost predicate Waiting(s: Sys) {
    && s.net.done <= |s.net.sent|
    && Ascending(Unanswered(s.net), s.ctl.nextXid)
    && (s.seqno == s.net.epoch ==> Waits(s.ctl, Unanswered(s.net)))
  }

  lemma LaterAnswers(x: nat, xs: seq<nat>, bound: nat)
    requires Ascending([x] + xs, bound)
    ensures forall y :: y in xs ==> y > x
  {
    var all := [x] + xs;
    forall i | 0 <= i < |xs| ensures xs[i] > x {
      assert all[0] < all[i + 1];
    }
  }

  /** A barrier's answer while flows are updated: the front update goes if it is its
    * own, and so do the flushes that waited for it. */
  lemma AnswerStep(c: Ctl, x: nat, xs: seq<nat>)
    requires c.state == UpdateFlows && Waits(c, [x] + xs) && Ascending([x] + xs, c.nextXid)
    ensures Waits(RecvUpdate(c, BarrierReply(x)).0, xs)
  {
    LaterAnswers(x, xs, c.nextXid);
    if c.updates != [] {
      AnswerUpdates(c.updates, x, xs);
      AnswerFlushes(c.pending, c.updates, x, xs);
    }
  }

  lemma AnswerFlushes(ps: seq<Pending>, us: seq<Update>, x: nat, xs: seq<nat>)
    requires us != [] && FlushesWait(ps, us, [x] + xs) && forall y :: y in xs ==> y > x
    ensures FlushesWait(FlushedAll(ps, x), if us[0].xid == x then us[1..] else us, xs)
  {
    var ps1 := FlushedAll(ps, x);
    forall p | p in ps1 && p.state == OfSent
      ensures p in ps && p.xid in xs && p.xid <= Last(us).xid {
      var i :| 0 <= i < |ps1| && ps1[i] == p;
      assert p == Flushed(ps[i], x) && ps[i] in ps;
      assert p.xid in [x] + xs;
    }
  }

  lemma AnswerUpdates(us: seq<Update>, x: nat, xs: seq<nat>)
    requires us != [] && UpdatesWait(us, [x] + xs) && forall y :: y in xs ==> y > x
    ensures UpdatesWait(if us[0].xid == x then us[1..] else us, xs)
    ensures |us| > 1 ==> Last(us[1..]) == Last(us)
  {
    assert XidsAscend(us[1..]);
    forall i | 0 <= i < |us| ensures us[i].xid in xs || (i == 0 && us[0].xid == x) {
      StillToCome(us, x, xs, i);
    }
  }

  lemma StillToCome(us: seq<Update>, x: nat, xs: seq<nat>, i: nat)
    requires i < |us| && UpdatesWait(us, [x] + xs) && forall y :: y in xs ==> y > x
    ensures us[i].xid in xs || (i == 0 && us[0].xid == x)
  {
    assert us[i].xid in [x] + xs && us[0].xid in [x] + xs;
    assert i > 0 ==> us[0].xid < us[i].xid;
  }

  /** Any other message leaves updates and zone entries alone. */
  lemma OtherStep(c: Ctl, m: Option<Reply>)
    requires c.state == UpdateFlows && (m.Some? ==> !m.value.BarrierReply?)
    ensures var c1 := Turn(c, m).0;
            c1.state == UpdateFlows && c1.updates == c.updates && c1.pending == c.pending && c1.nextXid == c.nextXid
  {
  }

  lemma AnswerTurn(c: Ctl, x: nat)
    requires c.state == UpdateFlows
    ensures var (c1, ms) := Turn(c, Some(BarrierReply(x)));
            c1 == RecvUpdate(c, BarrierReply(x)).0 && c1.state == UpdateFlows && ms == [] && c1.nextXid == c.nextXid
  {
  }

  /** Before flows are updated, no flush is sent. */
  lemma EarlyTurn(c: Ctl, m: Option<Reply>)
    requires c.state != UpdateFlows
    ensures var c1 := Turn(c, m).0; c1.pending == c.pending && (c1.state == UpdateFlows ==> c1.updates == [])
  {
  }

  /** A turn sends at most one barrier, with a new id. */
  lemma TurnBarrier(c: Ctl, m: Option<Reply>)
    ensures var (c1, ms) := Turn(c, m);
            && c1.nextXid >= c.nextXid
            && (BarrierXids(ms) == [] || (BarrierXids(ms) == [c1.nextXid - 1] && c1.nextXid > c.nextXid))
  {
    var (c1, ms1) := RunState(c);
    assert BarrierXids(ms1) == [];
    if m.Some? {
      var ms2 := Recv(c1, m.value).1;
      BarrierXidsConcat(ms1, ms2);
      RecvBarrier(c1, m.value);
    }
  }

  lemma RecvBarrier(c: Ctl, m: Reply)
    requires c.state != New
    ensures var (c1, ms) := Recv(c, m);
            && c1.nextXid >= c.nextXid
            && (BarrierXids(ms) == [] || (BarrierXids(ms) == [c1.nextXid - 1] && c1.nextXid > c.nextXid))
  {
    var ms := Recv(c, m).1;
    if ms == [TlvMod(c.nextXid), Barrier(c.nextXid + 1)] {
      assert ms[1..] == [Barrier(c.nextXid + 1)] && ms[1..][1..] == [];
      assert BarrierXids(ms[1..]) == [c.nextXid + 1] + [];
      assert BarrierXids(ms) == [] + BarrierXids(ms[1..]);
    } else {
      assert ms == [] || ms == [EchoReply];
      assert [EchoReply][1..] == [];
    }
  }

  lemma AscendingSend(xs: seq<nat>, ys: seq<nat>, bound: nat, bound1: nat)
    requires Ascending(xs, bound) && bound <= bound1
    requires ys == [] || (|ys| == 1 && bound <= ys[0] < bound1)
    ensures Ascending(xs + ys, bound1)
  {
  }

  lemma WaitsMore(c: Ctl, xs: seq<nat>, ys: seq<nat>)
    requires Waits(c, xs)
    ensures Waits(c, xs + ys)
  {
  }

  lemma WaitsAfterTurn(c: Ctl, m: Option<Reply>, xs: seq<nat>)
    requires Waits(c, (if m.Some? && m.value.BarrierReply? then [m.value.xid] else []) + xs)
    requires Ascending((if m.Some? && m.value.BarrierReply? then [m.value.xid] else []) + xs, c.nextXid)
    ensures Waits(Turn(c, m).0, xs)
  {
    if c.state != UpdateFlows {
      EarlyTurn(c, m);
    } else if m.Some? && m.value.BarrierReply? {
      AnswerTurn(c, m.value.xid);
      AnswerStep(c, m.value.xid, xs);
    } else {
      OtherStep(c, m);
      assert [] + xs == xs;
    }
  }

  lemma WaitingAfterRun(s: Sys, receive: bool)
    requires Waiting(s) && s.seqno == s.net.epoch && (receive ==> s.net.replies != [])
    ensures Waiting(DoRun(s, receive))
  {
    var m := if receive then Some(s.net.replies[0]) else None;
    var (c, ms) := Turn(s.ctl, m);
    var net := s.net.(replies := if receive then s.net.replies[1..] else s.net.replies);
    if receive {
      UnansweredReceive(s.net);
    }
    var xs := Unanswered(net);
    var head := if m.Some? && m.value.BarrierReply? then [m.value.xid] else [];
    assert Unanswered(s.net) == head + xs;
    WaitsAfterTurn(s.ctl, m, xs);
    WaitsMore(c, xs, BarrierXids(ms));
    TurnBarrier(s.ctl, m);
    UnansweredSend(net, ms);
    AscendingTail(head, xs, s.ctl.nextXid);
    AscendingSend(xs, BarrierXids(ms), s.ctl.nextXid, c.nextXid);
  }

  lemma AscendingTail(head: seq<nat>, xs: seq<nat>, bound: nat)
    requires Ascending(head + xs, bound)
    ensures Ascending(xs, bound)
  {
    assert forall i :: 0 <= i < |xs| ==> (head + xs)[|head| + i] == xs[i];
  }

  // ----- puts

  lemma {:induction false} TrackWaits(us: seq<Update>, xid: nat, nbCfg: int, xs: seq<nat>)
    requires UpdatesWait(us, xs) && forall x :: x in xs ==> x < xid
    ensures UpdatesWait(Track(us, xid, nbCfg), xs + [xid])
    decreases |us|
  {
    if us == [] {
    } else if nbCfg < us[|us| - 1].nbCfg {
      FewerWait(us, xs);
      TrackWaits(us[..|us| - 1], xid, nbCfg, xs);
    } else if nbCfg == us[|us| - 1].nbCfg {
      FewerWait(us, xs);
      OneMoreWaits(us[..|us| - 1], Update(xid, nbCfg), xs);
    } else {
      OneMoreWaits(us, Update(xid, nbCfg), xs);
    }
  }

  lemma FewerWait(us: seq<Update>, xs: seq<nat>)
    requires us != [] && UpdatesWait(us, xs)
    ensures UpdatesWait(us[..|us| - 1], xs)
  {
  }

  lemma OneMoreWaits(us: seq<Update>, u: Update, xs: seq<nat>)
    requires UpdatesWait(us, xs) && forall x :: x in xs ==> x < u.xid
    ensures UpdatesWait(us + [u], xs + [u.xid])
  {
  }

  lemma PutBarrierXids(c: Ctl, desired: FlowTable, nbCfg: int, b: Batch)
    ensures var (c1, ms) := Put(c, desired, nbCfg, b);
            BarrierXids(ms) == if BatchMsgs(b, c.pending) == [] then [] else [c.nextXid]
  {
    var bm := BatchMsgs(b, c.pending);
    PutMsgs(c, desired, nbCfg, b);
    forall i | 0 <= i < |bm| ensures !bm[i].Barrier? {
      BatchMember(b, c.pending, bm[i]);
    }
    NoBarriers(bm);
    BarrierXidsConcat(bm, [Barrier(c.nextXid)]);
    assert [Barrier(c.nextXid)][1..] == [];
  }

  lemma WaitsAfterPut(c: Ctl, desired: FlowTable, nbCfg: int, b: Batch, xs: seq<nat>)
    requires c.state == UpdateFlows && Waits(c, xs) && Ascending(xs, c.nextXid) && IsBatch(b, c, desired)
    ensures var (c1, ms) := Put(c, desired, nbCfg, b); Waits(c1, xs + BarrierXids(ms))
  {
    var (c1, ms) := Put(c, desired, nbCfg, b);
    PutBarrierXids(c, desired, nbCfg, b);
    if BatchMsgs(b, c.pending) == [] {
      assert xs + [] == xs;
      if c.updates != [] {
        RelabelWaits(c, nbCfg, xs);
      }
    } else {
      assert forall x :: x in xs ==> x < c.nextXid;
      TrackWaits(c.updates, c.nextXid, nbCfg, xs);
      SentWaits(c, nbCfg, xs);
    }
  }

  lemma RelabelWaits(c: Ctl, nbCfg: int, xs: seq<nat>)
    requires c.state == UpdateFlows && Waits(c, xs) && c.updates != []
    ensures var us := c.updates[..|c.updates| - 1] + [Last(c.updates).(nbCfg := nbCfg)];
            UpdatesWait(us, xs) && FlushesWait(c.pending, us, xs)
  {
  }

  lemma SentWaits(c: Ctl, nbCfg: int, xs: seq<nat>)
    requires c.state == UpdateFlows && Waits(c, xs) && Ascending(xs, c.nextXid)
    ensures FlushesWait(SentAll(c.pending, c.nextXid), Track(c.updates, c.nextXid, nbCfg), xs + [c.nextXid])
  {
    var ps := SentAll(c.pending, c.nextXid);
    forall p | p in ps && p.state == OfSent ensures p.xid in xs + [c.nextXid] && p.xid <= c.nextXid {
      var i :| 0 <= i < |ps| && ps[i] == p;
      assert p == SentWith(c.pending[i], c.nextXid) && c.pending[i] in c.pending;
    }
  }

  lemma WaitingAfterPut(s: Sys, desired: FlowTable, nbCfg: int, batch: Batch, backlog: bool)
    requires Waiting(s) && (CanPut(s.ctl, backlog) ==> IsBatch(batch, s.ctl, desired)) && s.seqno == s.net.epoch
    ensures Waiting(PutStep(s, desired, nbCfg, batch, backlog))
  {
    if CanPut(s.ctl, backlog) {
      var (c, ms) := Put(s.ctl, desired, nbCfg, batch);
      var xs := Unanswered(s.net);
      WaitsAfterPut(s.ctl, desired, nbCfg, batch, xs);
      PutBarrierXids(s.ctl, desired, nbCfg, batch);
      PutMsgs(s.ctl, desired, nbCfg, batch);
      UnansweredSend(s.net, ms);
      AscendingSend(xs, BarrierXids(ms), s.ctl.nextXid, c.nextXid);
    }
  }

  // ----- every run

  /** Other changes to zone entries make none a sent one. */
  lemma NoNewSent(s: Sys, step: Step, p: Pending)
    requires Enabled(s, step) && (step.ZoneAdded? || step.ZoneRemoved? || step.CommitZones? || step.ZonesStored?)
    requires p in Do(s, step).ctl.pending && p.state == OfSent
    ensures p in s.ctl.pending
  {
    var ps := Do(s, step).ctl.pending;
    if step.CommitZones? {
      var i :| 0 <= i < |ps| && ps[i] == p;
      assert p == Committed(s.ctl.pending[i]);
    }
  }

  lemma WaitingKept(s: Sys, step: Step)
    requires Waiting(s) && NoticedOk(s) && Enabled(s, step)
    ensures Waiting(Do(s, step))
  {
    var t := Do(s, step);
    match step
    case Connect(_, _, _) => assert Unanswered(t.net) == [];
    case Process(answer) => UnansweredProcess(s.net, answer);
    case Unsolicited(reply) => UnansweredReply(s.net, reply);
    case Notice =>
      forall p | p in t.ctl.pending ensures p.state != OfSent {
        var i :| 0 <= i < |t.ctl.pending| && t.ctl.pending[i] == p;
        assert p == Requeued(s.ctl.pending[i]);
      }
    case Run(receive) => WaitingAfterRun(s, receive);
    case DoPut(desired, nbCfg, batch, backlog) => WaitingAfterPut(s, desired, nbCfg, batch, backlog);
    case AssignId(kind, name) =>
    case BeginBuild(_) =>
    case _ =>
      forall p | p in t.ctl.pending && p.state == OfSent ensures p in s.ctl.pending {
        NoNewSent(s, step, p);
      }
  }

  lemma {:induction false} WaitingAlways(run: seq<Sys>, i: nat)
    requires IsRun(run) && i < |run|
    ensures Waiting(run[i])
  {
    if i > 0 {
      WaitingAlways(run, i - 1);
      NoticedAlways(run, i - 1);
      var step := StepTo(run, i);
      WaitingKept(run[i - 1], step);
    }
  }

  // ----- barriers of puts

  /** What was sent after the tables were cleared. */
  function AfterClear(ms: seq<Msg>): (r: seq<Msg>) {
    if ms == [] then [] else if ms[0] == DeleteAllFlows then ms[1..] else AfterClear(ms[1..])
  }

  lemma {:induction false} AfterClearMore(a: seq<Msg>, b: seq<Msg>)
    ensures DeleteAllFlows in a ==> AfterClear(a + b) == AfterClear(a) + b
    ensures DeleteAllFlows !in a ==> AfterClear(a + b) == AfterClear(b)
  {
    if a == [] {
      assert a + b == b;
    } else {
      assert a == [a[0]] + a[1..] && (a + b)[1..] == a[1..] + b;
      AfterClearMore(a[1..], b);
    }
  }

  /** The ids of the barriers that puts have sent on this connection. */
  function PutXids(net: Net): (r: seq<nat>) {
    BarrierXids(AfterClear(net.sent))
  }

  /** Of those, no unanswered one is later than the last update. */
  ghost predicate PutsWait(puts: seq<nat>, us: seq<Update>, xs: seq<nat>) {
    forall x :: x in puts && x in xs ==> us != [] && x <= Last(us).xid
  }

  /** The tables are cleared once on a connection, before flows are updated. */
  ghost predicate PutsWaiting(s: Sys) {
    && s.net.done <= |s.net.sent|
    && (s.seqno != s.net.epoch ==> s.net.sent == [])
    && (s.seqno == s.net.epoch ==>
          if s.ctl.state == UpdateFlows
          then DeleteAllFlows in s.net.sent && PutsWait(PutXids(s.net), s.ctl.updates, Unanswered(s.net))
          else DeleteAllFlows !in s.net.sent)
  }

  lemma ClearMsgs(c: Ctl, m: Option<Reply>)
    requires c.state == ClearFlows
    ensures var ms := Turn(c, m).1; DeleteAllFlows in ms && BarrierXids(AfterClear(ms)) == []
  {
    TurnClearing(c, m);
    var ms := Turn(c, m).1;
    assert AfterClear(ms) == ms[1..] && ms[0] == DeleteAllFlows;
    NoBarriers(ms[1..]);
  }

  lemma EarlyMsgs(c: Ctl, m: Option<Reply>)
    requires c.state != ClearFlows && c.state != UpdateFlows
    ensures DeleteAllFlows !in Turn(c, m).1
  {
  }

  lemma AnswerPuts(puts: seq<nat>, us: seq<Update>, x: nat, xs: seq<nat>)
    requires UpdatesWait(us, [x] + xs) && (forall y :: y in xs ==> y > x) && PutsWait(puts, us, [x] + xs)
    ensures PutsWait(puts, if us != [] && us[0].xid == x then us[1..] else us, xs)
  {
    if us != [] {
      AnswerUpdates(us, x, xs);
    }
  }

  /** A turn while flows are updated sends no barrier, and a put's barrier stays or is
    * answered. */
  lemma TurnPutXids(s: Sys, receive: bool)
    requires Updating(s) && (receive ==> s.net.replies != []) && s.net.done <= |s.net.sent|
    requires DeleteAllFlows in s.net.sent
    ensures PutXids(DoRun(s, receive).net) == PutXids(s.net)
    ensures Unanswered(DoRun(s, receive).net)
            == Unanswered(s.net.(replies := if receive then s.net.replies[1..] else s.net.replies))
  {
    var m := if receive then Some(s.net.replies[0]) else None;
    var ms := Turn(s.ctl, m).1;
    TurnUpdating(s.ctl, m);
    NoBarriers(ms);
    UnansweredSend(s.net.(replies := if receive then s.net.replies[1..] else s.net.replies), ms);
    AfterClearMore(s.net.sent, ms);
    BarrierXidsConcat(AfterClear(s.net.sent), ms);
    NothingAdded(PutXids(s.net));
    NothingAdded(Unanswered(s.net.(replies := if receive then s.net.replies[1..] else s.net.replies)));
  }

  lemma NothingAdded(xs: seq<nat>)
    ensures xs + [] == xs
  {
  }

  lemma PutsAfterTurn(s: Sys, receive: bool)
    requires Waiting(s) && PutsWaiting(s) && Updating(s) && (receive ==> s.net.replies != [])
    ensures PutsWaiting(DoRun(s, receive))
  {
    var m := if receive then Some(s.net.replies[0]) else None;
    TurnPutXids(s, receive);
    TurnUpdating(s.ctl, m);
    TurnUpdates(s.ctl, m);
    if receive {
      UnansweredReceive(s.net);
      if s.net.replies[0].BarrierReply? {
        var xs := Unanswered(s.net.(replies := s.net.replies[1..]));
        LaterAnswers(s.net.replies[0].xid, xs, s.ctl.nextXid);
        AnswerPuts(PutXids(s.net), s.ctl.updates, s.net.replies[0].xid, xs);
      }
    }
  }

  lemma PutsAfterRun(s: Sys, receive: bool)
    requires Waiting(s) && PutsWaiting(s) && s.seqno == s.net.epoch && (receive ==> s.net.replies != [])
    ensures PutsWaiting(DoRun(s, receive))
  {
    var m := if receive then Some(s.net.replies[0]) else None;
    if s.ctl.state == UpdateFlows {
      PutsAfterTurn(s, receive);
    } else {
      AfterClearMore(s.net.sent, Turn(s.ctl, m).1);
      if s.ctl.state == ClearFlows {
        ClearMsgs(s.ctl, m);
        TurnClearing(s.ctl, m);
      } else {
        EarlyMsgs(s.ctl, m);
        TurnNegotiating(s.ctl, m);
      }
    }
  }

  lemma PutsMore(puts: seq<nat>, us: seq<Update>, us1: seq<Update>, xs: seq<nat>, x: nat)
    requires PutsWait(puts, us, xs) && (forall y :: y in xs ==> y < x) && us1 != [] && Last(us1).xid == x
    ensures PutsWait(puts + [x], us1, xs + [x])
  {
  }

  lemma PutsSame(puts: seq<nat>, us: seq<Update>, us1: seq<Update>, xs: seq<nat>)
    requires PutsWait(puts, us, xs) && |us1| == |us| && (us != [] ==> Last(us1).xid == Last(us).xid)
    ensures PutsWait(puts + [], us1, xs + [])
  {
  }

  /** The update that waits for the put's barrier, or the one that waited already. */
  lemma PutUpdates(c: Ctl, desired: FlowTable, nbCfg: int, b: Batch)
    ensures var us := Put(c, desired, nbCfg, b).0.updates;
            if BatchMsgs(b, c.pending) != [] then us != [] && Last(us).xid == c.nextXid
            else |us| == |c.updates| && (us != [] ==> Last(us).xid == Last(c.updates).xid)
  {
  }

  lemma PutWaits(c: Ctl, desired: FlowTable, nbCfg: int, b: Batch, puts: seq<nat>, xs: seq<nat>)
    requires c.state == UpdateFlows && PutsWait(puts, c.updates, xs) && Ascending(xs, c.nextXid)
    ensures var (c1, ms) := Put(c, desired, nbCfg, b);
            PutsWait(puts + BarrierXids(ms), c1.updates, xs + BarrierXids(ms))
  {
    var us := Put(c, desired, nbCfg, b).0.updates;
    PutBarrierXids(c, desired, nbCfg, b);
    PutUpdates(c, desired, nbCfg, b);
    if BatchMsgs(b, c.pending) == [] {
      PutsSame(puts, c.updates, us, xs);
    } else {
      PutsMore(puts, c.updates, us, xs, c.nextXid);
    }
  }

  lemma PutsAfterPut(s: Sys, desired: FlowTable, nbCfg: int, batch: Batch, backlog: bool)
    requires Waiting(s) && PutsWaiting(s) && s.seqno == s.net.epoch
    ensures PutsWaiting(PutStep(s, desired, nbCfg, batch, backlog))
  {
    if CanPut(s.ctl, backlog) {
      var ms := Put(s.ctl, desired, nbCfg, batch).1;
      PutMsgs(s.ctl, desired, nbCfg, batch);
      UnansweredSend(s.net, ms);
      AfterClearMore(s.net.sent, ms);
      BarrierXidsConcat(AfterClear(s.net.sent), ms);
      PutWaits(s.ctl, desired, nbCfg, batch, PutXids(s.net), Unanswered(s.net));
    }
  }

  lemma PutsKept(s: Sys, step: Step)
    requires Waiting(s) && PutsWaiting(s) && NoticedOk(s) && Enabled(s, step)
    ensures PutsWaiting(Do(s, step))
  {
    match step
    case Process(answer) => UnansweredProcess(s.net, answer);
    case Unsolicited(reply) => UnansweredReply(s.net, reply);
    case Run(receive) => PutsAfterRun(s, receive);
    case DoPut(desired, nbCfg, batch, backlog) => PutsAfterPut(s, desired, nbCfg, batch, backlog);
    case _ =>
  }

  lemma {:induction false} PutsAlways(run: seq<Sys>, i: nat)
    requires IsRun(run) && i < |run|
    ensures PutsWaiting(run[i])
  {
    if i > 0 {
      PutsAlways(run, i - 1);
      WaitingAlways(run, i - 1);
      NoticedAlways(run, i - 1);
      var step := StepTo(run, i);
      PutsKept(run[i - 1], step);
    }
  }

  /** In every run, while flows are updated: as long as the answer to a put's barrier
    * is to come, an update is in flight, so that answers are looked at. */
  lemma UpdateInFlight(run: seq<Sys>, i: nat, x: nat)
    requires IsRun(run) && i < |run| && Updating(run[i]) && x in PutXids(run[i].net)
    ensures run[i].net.done <= |run[i].net.sent|
    ensures x in Unanswered(run[i].net) ==> run[i].ctl.updates != []
  {
    PutsAlways(run, i);
  }

  /** The answer to the barrier behind a flush that was sent is to come. */
  lemma NotStranded(run: seq<Sys>, i: nat, p: Pending)
    requires IsRun(run) && i < |run| && Updating(run[i]) && p in run[i].ctl.pending && p.state == OfSent
    ensures run[i].net.done <= |run[i].net.sent| && p.xid in Unanswered(run[i].net) && run[i].ctl.updates != []
  {
    WaitingAlways(run, i);
  }

  /** When it arrives, it hands the zone over to the database. */
  lemma AnswerHandsOver(run: seq<Sys>, i: nat, p: Pending)
    requires IsRun(run) && i < |run| && Updating(run[i]) && p in run[i].ctl.pending && p.state == OfSent
    requires Enabled(run[i], Run(true)) && run[i].net.replies[0] == BarrierReply(p.xid)
    ensures p.(state := DbQueued) in Do(run[i], Run(true)).ctl.pending
  {
    var c := run[i].ctl;
    NotStranded(run, i, p);
    AnswerTurn(c, p.xid);
    var j :| 0 <= j < |c.pending| && c.pending[j] == p;
    assert FlushedAll(c.pending, p.xid)[j] == p.(state := DbQueued);
  }
}
