/** The controller, the connection and the switch together: what holds in every
  * run, for any interleaving of turns, puts, replies and reconnections. */
module SwitchSync {
  import opened Util
  import opened OpenFlow
  import opened Controller
  import Ext = ExtendTables

  // ----- the system

  /** One connection: the switch's tables when it was made, everything sent on
    * it so far, how much of that the switch has processed, and what the switch
    * has sent back that has not been received yet. */
  datatype Net = Net(
    epoch: nat,
    flows0: FlowTable, groups0: map<nat, string>, meters0: map<nat, string>,
    sent: seq<Msg>, done: nat, replies: seq<Reply>)

  /** A put that was carried out. */
  datatype PutRecord = PutRecord(nbCfg: int, desired: FlowTable)

  /** 'seqno' is the connection that the controller has noticed.  'building' is
    * true between the main loop's check that it may put and the put.  'log' is
    * the history of puts, and 'barriered' tells whether a put has sent a
    * barrier since the tables were last cleared. */
  datatype Sys = Sys(ctl: Ctl, seqno: nat, net: Net, building: bool, log: seq<PutRecord>, barriered: bool)

  datatype Step =
    | Connect(flows: FlowTable, groups: map<nat, string>, meters: map<nat, string>)
    | Process(answer: Option<Reply>)
    | Unsolicited(reply: Reply)
    | Notice
    | Run(receive: bool)
    | BeginBuild(backlog: bool)
    | AssignId(kind: Kind, name: string)
    | DoPut(desired: FlowTable, nbCfg: int, batch: Batch, backlog: bool)
    | ZoneAdded(user: string, zone: nat)
    | ZoneRemoved(user: string, zone: nat)
    | CommitZones
    | ZonesStored

  /** How the switch may answer a message. */
  predicate AnswerOk(m: Msg, answer: Option<Reply>) {
    match m
    case Barrier(x) => answer == Some(BarrierReply(x))
    case TlvRequest(x) => answer.None? || (!answer.value.BarrierReply? && answer.value.xid == x)
    case TlvMod(x) => answer.None? || (!answer.value.BarrierReply? && answer.value.xid == x)
    case _ => answer.None?
  }

  ghost predicate Enabled(s: Sys, step: Step) {
    match step
    case Connect(_, _, _) => !s.building
    case Process(answer) => s.net.done < |s.net.sent| && AnswerOk(s.net.sent[s.net.done], answer)
    case Unsolicited(reply) => !reply.BarrierReply?
    case Notice => !s.building && s.seqno != s.net.epoch
    case Run(receive) => !s.building && s.seqno == s.net.epoch && (receive ==> s.net.replies != [])
    case BeginBuild(backlog) => !s.building && s.seqno == s.net.epoch && CanPut(s.ctl, backlog)
    case AssignId(_, _) => s.building
    case DoPut(desired, _, batch, backlog) => s.building && (CanPut(s.ctl, backlog) ==> IsBatch(batch, s.ctl, desired))
    case ZoneAdded(_, _) => !s.building
    case ZoneRemoved(_, _) => !s.building
    case CommitZones => true
    case ZonesStored => true
  }

  function Committed(p: Pending): (r: Pending) {
    if p.state == DbQueued || p.state == DbSent then p.(state := DbSent) else p
  }

  function CommittedAll(ps: seq<Pending>): (r: seq<Pending>)
    ensures |r| == |ps| && forall i :: 0 <= i < |ps| ==> r[i] == Committed(ps[i])
  {
    seq(|ps|, i requires 0 <= i < |ps| => Committed(ps[i]))
  }

  function Unstored(ps: seq<Pending>): (r: seq<Pending>)
    ensures forall p :: p in r <==> p in ps && p.state != DbSent
  {
    if ps == [] then []
    else
      assert ps == [ps[0]] + ps[1..];
      (if ps[0].state == DbSent then [] else [ps[0]]) + Unstored(ps[1..])
  }

  function Send(net: Net, ms: seq<Msg>): (r: Net) {
    net.(sent := net.sent + ms)
  }

  function DoRun(s: Sys, receive: bool): (r: Sys)
    requires receive ==> s.net.replies != []
  {
    var m := if receive then Some(s.net.replies[0]) else None;
    var (c, ms) := Turn(s.ctl, m);
    s.(ctl := c,
       net := Send(s.net.(replies := if receive then s.net.replies[1..] else s.net.replies), ms),
       barriered := s.barriered && s.ctl.state != ClearFlows)
  }

  function DoAssign(c: Ctl, kind: Kind, name: string): (r: Ctl) {
    if kind == Group then c.(groups := Ext.Assign(c.groups, name).0) else c.(meters := Ext.Assign(c.meters, name).0)
  }

  function PutStep(s: Sys, desired: FlowTable, nbCfg: int, batch: Batch, backlog: bool): (r: Sys) {
    if CanPut(s.ctl, backlog) then
      var (c, ms) := Put(s.ctl, desired, nbCfg, batch);
      s.(ctl := c, net := Send(s.net, ms), building := false,
         log := s.log + [PutRecord(nbCfg, desired)], barriered := s.barriered || ms != [])
    else s.(ctl := PutRefused(s.ctl), building := false)
  }

  ghost function Do(s: Sys, step: Step): (r: Sys)
    requires Enabled(s, step)
  {
    match step
    case Connect(flows, groups, meters) => s.(net := Net(s.net.epoch + 1, flows, groups, meters, [], 0, []))
    case Process(answer) =>
      s.(net := s.net.(done := s.net.done + 1, replies := s.net.replies + if answer.Some? then [answer.value] else []))
    case Unsolicited(reply) => s.(net := s.net.(replies := s.net.replies + [reply]))
    case Notice => s.(seqno := s.net.epoch, ctl := Reconnected(s.ctl))
    case Run(receive) => DoRun(s, receive)
    case BeginBuild(_) => s.(building := true)
    case AssignId(kind, name) => s.(ctl := DoAssign(s.ctl, kind, name))
    case DoPut(desired, nbCfg, batch, backlog) => PutStep(s, desired, nbCfg, batch, backlog)
    case ZoneAdded(user, zone) =>
      s.(ctl := s.ctl.(pending := s.ctl.pending + [Pending(user, zone, true, 0, OfQueued)]))
    case ZoneRemoved(user, zone) =>
      s.(ctl := s.ctl.(pending := s.ctl.pending + [Pending(user, zone, false, 0, DbQueued)]))
    case CommitZones => s.(ctl := s.ctl.(pending := CommittedAll(s.ctl.pending)))
    case ZonesStored => s.(ctl := s.ctl.(pending := Unstored(s.ctl.pending)))
  }

  ghost predicate Init(s: Sys) {
    && s.ctl == Ctl(New, 0, 0, 1, map[], Ext.EMPTY, Ext.EMPTY, [], 0, [])
    && s.seqno == 0 && s.net.epoch == 1 && s.net.sent == [] && s.net.done == 0 && s.net.replies == []
    && !s.building && s.log == [] && !s.barriered
  }

  ghost predicate Next(s: Sys, t: Sys) {
    exists step :: Enabled(s, step) && t == Do(s, step)
  }

  // ----- what holds in every state

  predicate Updating(s: Sys) {
    s.seqno == s.net.epoch && s.ctl.state == UpdateFlows
  }

  /** Ids are managed properly, and nothing is wanted outside of a build, so
    * that clearing what is installed is safe. */
  ghost predicate IdsOk(s: Sys) {
    && Ext.Valid(s.ctl.groups) && Ext.Valid(s.ctl.meters)
    && (!s.building ==> s.ctl.groups.desired == map[] && s.ctl.meters.desired == map[])
  }

  /** Barrier transaction ids are unique on a connection. */
  ghost predicate BarriersOk(sent: seq<Msg>, nextXid: nat) {
    && (forall i :: 0 <= i < |sent| && sent[i].Barrier? ==> sent[i].xid < nextXid)
    && (forall i, j :: 0 <= i < j < |sent| && sent[i].Barrier? && sent[j].Barrier? ==> sent[i].xid != sent[j].xid)
  }

  /** Only processed barriers are answered. */
  ghost predicate NetOk(s: Sys) {
    && s.net.done <= |s.net.sent|
    && BarriersOk(s.net.sent, s.ctl.nextXid)
    && (forall r :: r in s.net.replies && r.BarrierReply? ==> Barrier(r.xid) in s.net.sent[..s.net.done])
  }

  /** The switch's entries are exactly the installed ones. */
  ghost predicate Agree(g: map<nat, string>, existing: map<string, nat>) {
    && (forall n :: n in existing ==> existing[n] in g && g[existing[n]] == n)
    && (forall id :: id in g ==> g[id] in existing && existing[g[id]] == id)
  }

  /** Once all that was sent has been processed, the switch's tables will be the
    * ones that the controller takes for installed. */
  ghost predicate InSync(s: Sys) {
    Updating(s) ==>
      && FlowsAfter(s.net.flows0, s.net.sent) == s.ctl.installed
      && Agree(EntriesAfter(Group, s.net.groups0, s.net.sent), s.ctl.groups.existing)
      && Agree(EntriesAfter(Meter, s.net.meters0, s.net.sent), s.ctl.meters.existing)
  }

  /** The update's barrier is message 'j', and up to it the flow table becomes
    * what some put with the update's configuration number wanted. */
  ghost predicate TrackedAt(net: Net, log: seq<PutRecord>, u: Update, j: nat) {
    j < |net.sent| && net.sent[j] == Barrier(u.xid)
      && PutRecord(u.nbCfg, FlowsAfter(net.flows0, net.sent[..j + 1])) in log
  }

  /** No message from 'k' on touches the flow table. */
  ghost predicate QuietFrom(sent: seq<Msg>, k: nat) {
    forall i :: k <= i < |sent| ==> NotFlow(sent[i])
  }

  ghost predicate LastAt(net: Net, u: Update, j: nat) {
    j < |net.sent| && net.sent[j] == Barrier(u.xid) && QuietFrom(net.sent, j + 1)
  }

  function Last(us: seq<Update>): (r: Update)
    requires us != []
  {
    us[|us| - 1]
  }

  /** Every in-flight update is tracked; nothing follows the last one's barrier;
    * and once all have been answered, the switch has nothing left to process. */
  ghost predicate UpdatesOk(s: Sys) {
    Updating(s) ==>
      && (forall u :: u in s.ctl.updates ==> exists j: nat :: TrackedAt(s.net, s.log, u, j))
      && (s.ctl.updates != [] ==> exists j: nat :: LastAt(s.net, Last(s.ctl.updates), j))
      && (s.ctl.updates == [] && s.barriered ==> QuietFrom(s.net.sent, s.net.done))
  }

  /** Message 'i' is a flush of 'zone', and message 'j' is barrier 'xid', the first
    * barrier behind it: they are of one put. */
  ghost predicate FlushAt(sent: seq<Msg>, zone: nat, xid: nat, i: nat, j: nat) {
    && i < j < |sent| && sent[i] == FlushZone(zone) && sent[j] == Barrier(xid)
    && forall k :: i < k < j ==> !sent[k].Barrier?
  }

  /** A flush of 'zone' was sent on this connection, by the put that sent barrier
    * 'xid'. */
  ghost predicate FlushSent(sent: seq<Msg>, zone: nat, xid: nat) {
    exists i: nat, j: nat :: FlushAt(sent, zone, xid, i, j)
  }

  ghost predicate ZonesOk(s: Sys) {
    s.seqno == s.net.epoch ==>
      forall p :: p in s.ctl.pending && p.state == OfSent ==> FlushSent(s.net.sent, p.zone, p.xid)
  }

  /** While flows are built and put, the connection is the one noticed. */
  predicate NoticedOk(s: Sys) {
    s.seqno <= s.net.epoch && (s.building ==> s.seqno == s.net.epoch)
  }

  ghost predicate Inv(s: Sys) {
    IdsOk(s) && NetOk(s) && InSync(s) && UpdatesOk(s) && ZonesOk(s) && NoticedOk(s)
  }

  lemma InitInv(s: Sys)
    requires Init(s)
    ensures Inv(s)
  {
    Ext.EmptyValid();
  }

  // ----- ids

  lemma IdsAfterRun(s: Sys, receive: bool)
    requires IdsOk(s) && !s.building && (receive ==> s.net.replies != [])
    ensures IdsOk(DoRun(s, receive))
  {
    TurnTables(s.ctl, if receive then Some(s.net.replies[0]) else None);
    Ext.ClearExistingValid(s.ctl.groups);
    Ext.ClearExistingValid(s.ctl.meters);
  }

  lemma PutTables(c: Ctl, desired: FlowTable, nbCfg: int, b: Batch)
    ensures var c1 := Put(c, desired, nbCfg, b).0;
            c1.groups == Ext.Settle(c.groups) && c1.meters == Ext.Settle(c.meters)
  {
  }

  lemma SettledOk(x: Ext.Ext, y: Ext.Ext)
    requires Ext.Valid(x) && (y == Ext.Settle(x) || y == Ext.ClearDesired(x))
    ensures Ext.Valid(y) && y.desired == map[]
  {
    Ext.SettleValid(x);
    Ext.ClearDesiredValid(x);
  }

  lemma IdsAfterPut(s: Sys, desired: FlowTable, nbCfg: int, batch: Batch, backlog: bool)
    requires IdsOk(s)
    ensures IdsOk(PutStep(s, desired, nbCfg, batch, backlog))
  {
    var t := PutStep(s, desired, nbCfg, batch, backlog);
    PutTables(s.ctl, desired, nbCfg, batch);
    SettledOk(s.ctl.groups, t.ctl.groups);
    SettledOk(s.ctl.meters, t.ctl.meters);
  }

  lemma IdsKept(s: Sys, step: Step)
    requires IdsOk(s) && Enabled(s, step)
    ensures IdsOk(Do(s, step))
  {
    match step
    case Run(receive) => IdsAfterRun(s, receive);
    case AssignId(kind, name) => Ext.AssignCorrect(Table(s.ctl, kind), name);
    case DoPut(desired, nbCfg, batch, backlog) => IdsAfterPut(s, desired, nbCfg, batch, backlog);
    case _ =>
  }

  // ----- messages and transaction ids

  /** Which barriers a turn sends: at most one, with a new id. */
  lemma TurnMsgs(c: Ctl, m: Option<Reply>)
    ensures var (c1, ms) := Turn(c, m);
            && c1.nextXid >= c.nextXid
            && BarriersOk(ms, c1.nextXid)
            && forall i :: 0 <= i < |ms| && ms[i].Barrier? ==> ms[i].xid >= c.nextXid
  {
  }

  lemma BarriersAppend(sent: seq<Msg>, ms: seq<Msg>, xid: nat, xid1: nat)
    requires BarriersOk(sent, xid) && xid <= xid1 && BarriersOk(ms, xid1)
    requires forall i :: 0 <= i < |ms| && ms[i].Barrier? ==> ms[i].xid >= xid
    ensures BarriersOk(sent + ms, xid1)
  {
  }

  lemma BatchMember(b: Batch, ps: seq<Pending>, m: Msg)
    requires m in BatchMsgs(b, ps)
    ensures m.FlushZone? || m.EntryAdd? || m.FlowMod? || m.EntryDelete?
  {
  }

  lemma PutBarriers(c: Ctl, desired: FlowTable, nbCfg: int, b: Batch)
    ensures var (c1, ms) := Put(c, desired, nbCfg, b);
            && c1.nextXid >= c.nextXid
            && BarriersOk(ms, c1.nextXid)
            && forall i :: 0 <= i < |ms| && ms[i].Barrier? ==> ms[i].xid >= c.nextXid
  {
    var bm := BatchMsgs(b, c.pending);
    forall i | 0 <= i < |bm| ensures !bm[i].Barrier? {
      BatchMember(b, c.pending, bm[i]);
    }
  }

  /** Answered barriers stay answered when more is sent. */
  lemma NetAppend(s: Sys, ms: seq<Msg>, xid: nat, replies: seq<Reply>)
    requires NetOk(s) && s.ctl.nextXid <= xid && BarriersOk(ms, xid)
    requires forall i :: 0 <= i < |ms| && ms[i].Barrier? ==> ms[i].xid >= s.ctl.nextXid
    requires forall r :: r in replies ==> r in s.net.replies
    ensures BarriersOk(s.net.sent + ms, xid)
    ensures forall r :: r in replies && r.BarrierReply? ==> Barrier(r.xid) in (s.net.sent + ms)[..s.net.done]
  {
    BarriersAppend(s.net.sent, ms, s.ctl.nextXid, xid);
    assert (s.net.sent + ms)[..s.net.done] == s.net.sent[..s.net.done];
  }

  lemma NetAfterRun(s: Sys, receive: bool)
    requires NetOk(s) && (receive ==> s.net.replies != [])
    ensures NetOk(DoRun(s, receive))
  {
    var m := if receive then Some(s.net.replies[0]) else None;
    var (c, ms) := Turn(s.ctl, m);
    TurnMsgs(s.ctl, m);
    NetAppend(s, ms, c.nextXid, DoRun(s, receive).net.replies);
  }

  lemma NetAfterPut(s: Sys, desired: FlowTable, nbCfg: int, batch: Batch, backlog: bool)
    requires NetOk(s)
    ensures NetOk(PutStep(s, desired, nbCfg, batch, backlog))
  {
    if CanPut(s.ctl, backlog) {
      PutBarriers(s.ctl, desired, nbCfg, batch);
      var (c, ms) := Put(s.ctl, desired, nbCfg, batch);
      NetAppend(s, ms, c.nextXid, s.net.replies);
    }
  }

  lemma NetKept(s: Sys, step: Step)
    requires NetOk(s) && Enabled(s, step)
    ensures NetOk(Do(s, step))
  {
    match step
    case Process(answer) =>
      assert s.net.sent[..s.net.done + 1] == s.net.sent[..s.net.done] + [s.net.sent[s.net.done]];
    case Run(receive) => NetAfterRun(s, receive);
    case DoPut(desired, nbCfg, batch, backlog) => NetAfterPut(s, desired, nbCfg, batch, backlog);
    case _ =>
  }

  // ----- tables

  /** What a turn may send and change once the tables have been cleared. */
  lemma TurnUpdating(c: Ctl, m: Option<Reply>)
    requires c.state == UpdateFlows
    ensures var (c1, ms) := Turn(c, m);
            && (ms == [] || ms == [EchoReply])
            && c1.state == UpdateFlows && c1.installed == c.installed
            && c1.groups == c.groups && c1.meters == c.meters
  {
  }

  lemma TurnClearing(c: Ctl, m: Option<Reply>)
    requires c.state == ClearFlows
    ensures var (c1, ms) := Turn(c, m);
            && var clear := [DeleteAllFlows, EntryDeleteAll(Group), EntryDeleteAll(Meter)];
            && (ms == clear || ms == clear + [EchoReply])
            && c1.state == UpdateFlows && c1.installed == map[] && c1.updates == []
            && c1.groups.existing == map[] && c1.meters.existing == map[]
  {
  }

  lemma TurnNegotiating(c: Ctl, m: Option<Reply>)
    requires c.state != ClearFlows && c.state != UpdateFlows
    ensures Turn(c, m).0.state != UpdateFlows
  {
  }

  lemma EchoTouchesNothing(t: FlowTable, g: map<nat, string>, kind: Kind, sent: seq<Msg>)
    ensures FlowsAfter(t, sent + [EchoReply]) == FlowsAfter(t, sent)
    ensures EntriesAfter(kind, g, sent + [EchoReply]) == EntriesAfter(kind, g, sent)
  {
    FlowsConcat(t, sent, [EchoReply]);
    EntriesConcat(kind, g, sent, [EchoReply]);
  }

  lemma Cleared(t: FlowTable, g: map<nat, string>, kind: Kind, sent: seq<Msg>)
    ensures var clear := [DeleteAllFlows, EntryDeleteAll(Group), EntryDeleteAll(Meter)];
            FlowsAfter(t, sent + clear) == map[] && EntriesAfter(kind, g, sent + clear) == map[]
  {
    var d, dg, dm := DeleteAllFlows, EntryDeleteAll(Group), EntryDeleteAll(Meter);
    assert [d, dg, dm] == [d, dg] + [dm] && [d, dg] == [d] + [dg];
    FlowsConcat(t, sent, [d, dg, dm]);
    var t1 := FlowsAfter(t, sent);
    FlowsConcat(t1, [d, dg], [dm]);
    FlowsConcat(t1, [d], [dg]);
    EntriesConcat(kind, g, sent, [d, dg, dm]);
    var g1 := EntriesAfter(kind, g, sent);
    EntriesConcat(kind, g1, [d, dg], [dm]);
    EntriesConcat(kind, g1, [d], [dg]);
  }

  lemma SyncAfterRun(s: Sys, receive: bool)
    requires InSync(s) && (receive ==> s.net.replies != [])
    ensures InSync(DoRun(s, receive))
  {
    var m := if receive then Some(s.net.replies[0]) else None;
    if s.ctl.state == UpdateFlows {
      TurnUpdating(s.ctl, m);
      EchoTouchesNothing(s.net.flows0, s.net.groups0, Group, s.net.sent);
      EchoTouchesNothing(s.net.flows0, s.net.meters0, Meter, s.net.sent);
      assert s.net.sent + [] == s.net.sent;
    } else if s.ctl.state == ClearFlows {
      TurnClearing(s.ctl, m);
      var clear := [DeleteAllFlows, EntryDeleteAll(Group), EntryDeleteAll(Meter)];
      Cleared(s.net.flows0, s.net.groups0, Group, s.net.sent);
      Cleared(s.net.flows0, s.net.meters0, Meter, s.net.sent);
      EchoTouchesNothing(s.net.flows0, s.net.groups0, Group, s.net.sent + clear);
      EchoTouchesNothing(s.net.flows0, s.net.meters0, Meter, s.net.sent + clear);
      assert s.net.sent + (clear + [EchoReply]) == s.net.sent + clear + [EchoReply];
    } else {
      TurnNegotiating(s.ctl, m);
    }
  }

  /** Only the flow commands of a batch touch the flow table. */
  lemma BatchFlows(t: FlowTable, b: Batch, ps: seq<Pending>)
    ensures FlowsAfter(t, BatchMsgs(b, ps)) == FlowsAfter(t, FlowMods(b.flows))
  {
    var fl, ad, fm, de := FlushMsgs(ps), AddMsgs(b.adds), FlowMods(b.flows), DeleteMsgs(b.deletes);
    FlowsConcat(t, fl + ad + fm, de);
    FlowsConcat(t, fl + ad, fm);
    FlowsUntouched(t, fl + ad);
    FlowsUntouched(FlowsAfter(t, fm), de);
  }

  /** Only its additions and deletions touch the other tables. */
  lemma BatchEntries(kind: Kind, g: map<nat, string>, b: Batch, ps: seq<Pending>)
    ensures EntriesAfter(kind, g, BatchMsgs(b, ps)) ==
            EntriesAfter(kind, EntriesAfter(kind, g, AddMsgs(b.adds)), DeleteMsgs(b.deletes))
  {
    var fl, ad, fm, de := FlushMsgs(ps), AddMsgs(b.adds), FlowMods(b.flows), DeleteMsgs(b.deletes);
    EntriesConcat(kind, g, fl + ad + fm, de);
    EntriesConcat(kind, g, fl + ad, fm);
    EntriesConcat(kind, g, fl, ad);
    EntriesUntouched(kind, g, fl);
    EntriesUntouched(kind, EntriesAfter(kind, g, ad), fm);
  }

  /** An id holds an added name if one was added under it, else what it held. */
  lemma {:induction false} AddedAt(kind: Kind, g: map<nat, string>, adds: seq<(Kind, nat, string)>, id: nat)
    ensures var h := EntriesAfter(kind, g, AddMsgs(adds));
            || (id in h && (kind, id, h[id]) in adds)
            || ((forall n :: (kind, id, n) !in adds) && (id in h <==> id in g) && (id in h ==> h[id] == g[id]))
    decreases |adds|
  {
    if adds != [] {
      var init, last := adds[..|adds| - 1], adds[|adds| - 1];
      assert adds == init + [last];
      assert AddMsgs(adds)[..|adds| - 1] == AddMsgs(init);
      var h1 := EntriesAfter(kind, g, AddMsgs(init));
      assert EntriesAfter(kind, g, AddMsgs(adds)) == EntryStep(kind, h1, EntryAdd(last.0, last.1, last.2));
      AddedAt(kind, g, init, id);
    }
  }

  lemma {:induction false} DeletedAt(kind: Kind, g: map<nat, string>, deletes: seq<(Kind, nat)>, id: nat)
    ensures var h := EntriesAfter(kind, g, DeleteMsgs(deletes));
            (id in h <==> id in g && (kind, id) !in deletes) && (id in h ==> h[id] == g[id])
    decreases |deletes|
  {
    if deletes != [] {
      var init, last := deletes[..|deletes| - 1], deletes[|deletes| - 1];
      assert deletes == init + [last];
      assert DeleteMsgs(deletes)[..|deletes| - 1] == DeleteMsgs(init);
      DeletedAt(kind, g, init, id);
    }
  }

  /** No id is both added and deleted by one put. */
  lemma NotAddedAndDeleted(c: Ctl, b: Batch, desired: FlowTable, kind: Kind, id: nat, name: string)
    requires Ext.Valid(c.groups) && Ext.Valid(c.meters) && IsBatch(b, c, desired) && (kind, id, name) in b.adds
    ensures (kind, id) !in b.deletes
  {
    var a := (kind, id, name);
    assert a.2 in Table(c, a.0).desired;
  }

  /** The additions and deletions for one kind, as the table demands them. */
  ghost predicate IsExtDiff(kind: Kind, x: Ext.Ext, adds: seq<(Kind, nat, string)>, deletes: seq<(Kind, nat)>) {
    && (forall id, n :: (kind, id, n) in adds <==> n in x.desired && n !in x.existing && id == x.desired[n].id)
    && (forall id :: (kind, id) in deletes ==> exists n :: n in x.existing && n !in x.desired && id == x.existing[n])
    && (forall n :: n in x.existing && n !in x.desired ==> (kind, x.existing[n]) in deletes)
  }

  lemma BatchExtDiff(c: Ctl, b: Batch, desired: FlowTable, kind: Kind)
    requires IsBatch(b, c, desired)
    ensures IsExtDiff(kind, Table(c, kind), b.adds, b.deletes)
  {
    forall id, n ensures (kind, id, n) in b.adds <==>
        n in Table(c, kind).desired && n !in Table(c, kind).existing && id == Table(c, kind).desired[n].id {
      var a := (kind, id, n);
      assert a in b.adds ==> a.2 in Table(c, a.0).desired;
    }
    forall id | (kind, id) in b.deletes
      ensures exists n :: n in Table(c, kind).existing && n !in Table(c, kind).desired
                && id == Table(c, kind).existing[n] {
      var d := (kind, id);
      assert d in b.deletes;
    }
  }

  /** Additions and deletions turn the installed entries into the wanted ones. */
  lemma EntriesSettle(kind: Kind, x: Ext.Ext, g: map<nat, string>, adds: seq<(Kind, nat, string)>,
                      deletes: seq<(Kind, nat)>)
    requires Ext.Valid(x) && Agree(g, x.existing) && IsExtDiff(kind, x, adds, deletes)
    ensures Agree(EntriesAfter(kind, EntriesAfter(kind, g, AddMsgs(adds)), DeleteMsgs(deletes)), Ext.Settle(x).existing)
  {
    var h1 := EntriesAfter(kind, g, AddMsgs(adds));
    var h := EntriesAfter(kind, h1, DeleteMsgs(deletes));
    var e := Ext.Settle(x).existing;
    forall n | n in e ensures e[n] in h && h[e[n]] == n {
      AddedAt(kind, g, adds, e[n]);
      DeletedAt(kind, h1, deletes, e[n]);
      WantedId(kind, x, g, adds, deletes, n, h1);
    }
    forall id | id in h ensures h[id] in e && e[h[id]] == id {
      AddedAt(kind, g, adds, id);
      DeletedAt(kind, h1, deletes, id);
    }
  }

  lemma WantedId(kind: Kind, x: Ext.Ext, g: map<nat, string>, adds: seq<(Kind, nat, string)>, deletes: seq<(Kind, nat)>,
                 n: string, h: map<nat, string>)
    requires Ext.OneName(x) && Ext.OneId(x) && Agree(g, x.existing) && IsExtDiff(kind, x, adds, deletes)
    requires n in x.desired
    requires var id := x.desired[n].id;
             || (id in h && (kind, id, h[id]) in adds)
             || ((forall m :: (kind, id, m) !in adds) && (id in h <==> id in g) && (id in h ==> h[id] == g[id]))
    ensures var id := x.desired[n].id; id in h && h[id] == n && (kind, id) !in deletes
  {
    var id := x.desired[n].id;
    if n in x.existing {
      assert x.existing[n] == id;
    } else {
      assert (kind, id, n) in adds;
    }
  }

  /** An empty batch means that the tables agree already. */
  lemma EmptyBatch(c: Ctl, b: Batch, desired: FlowTable)
    requires IsBatch(b, c, desired) && BatchMsgs(b, c.pending) == []
    ensures desired == c.installed
    ensures b.adds == [] && b.deletes == []
    ensures forall p :: p in c.pending ==> p.state != OfQueued
  {
    var bm := BatchMsgs(b, c.pending);
    assert |bm| == |FlushMsgs(c.pending)| + |b.adds| + |b.flows| + |b.deletes|;
    DiffEmpty(b.flows, c.installed, desired);
    NoneQueued(b, c.pending);
  }

  /** What a put sends: the batch, and a barrier if there is a batch. */
  lemma PutMsgs(c: Ctl, desired: FlowTable, nbCfg: int, b: Batch)
    ensures var (c1, ms) := Put(c, desired, nbCfg, b); var bm := BatchMsgs(b, c.pending);
            && ms == (if bm == [] then [] else bm + [Barrier(c.nextXid)])
            && c1.state == c.state && c1.installed == desired
  {
  }

  /** The barrier does not touch the flow table. */
  lemma PutFlows(t: FlowTable, sent: seq<Msg>, c: Ctl, desired: FlowTable, nbCfg: int, b: Batch)
    ensures FlowsAfter(t, sent + Put(c, desired, nbCfg, b).1) ==
            FlowsAfter(FlowsAfter(t, sent), BatchMsgs(b, c.pending))
  {
    var t1, bm, ms := FlowsAfter(t, sent), BatchMsgs(b, c.pending), Put(c, desired, nbCfg, b).1;
    PutMsgs(c, desired, nbCfg, b);
    FlowsConcat(t, sent, ms);
    if bm != [] {
      FlowsConcat(t1, bm, [Barrier(c.nextXid)]);
    }
  }

  /** The messages of a put make the flow table the wanted one. */
  lemma SyncFlows(t: FlowTable, sent: seq<Msg>, c: Ctl, desired: FlowTable, nbCfg: int, b: Batch)
    requires IsBatch(b, c, desired) && FlowsAfter(t, sent) == c.installed
    ensures FlowsAfter(t, sent + Put(c, desired, nbCfg, b).1) == desired
  {
    PutFlows(t, sent, c, desired, nbCfg, b);
    BatchFlows(c.installed, b, c.pending);
    DiffApplies(b.flows, c.installed, desired);
  }

  /** The barrier does not touch the groups or meters. */
  lemma PutEntries(kind: Kind, g: map<nat, string>, sent: seq<Msg>, c: Ctl, desired: FlowTable, nbCfg: int, b: Batch)
    ensures EntriesAfter(kind, g, sent + Put(c, desired, nbCfg, b).1) ==
            EntriesAfter(kind, EntriesAfter(kind, g, sent), BatchMsgs(b, c.pending))
  {
    var g1, bm, ms := EntriesAfter(kind, g, sent), BatchMsgs(b, c.pending), Put(c, desired, nbCfg, b).1;
    PutMsgs(c, desired, nbCfg, b);
    EntriesConcat(kind, g, sent, ms);
    if bm != [] {
      EntriesConcat(kind, g1, bm, [Barrier(c.nextXid)]);
    }
  }

  lemma BatchSettles(kind: Kind, g: map<nat, string>, c: Ctl, desired: FlowTable, b: Batch)
    requires IsBatch(b, c, desired) && Ext.Valid(Table(c, kind)) && Agree(g, Table(c, kind).existing)
    ensures Agree(EntriesAfter(kind, g, BatchMsgs(b, c.pending)), Ext.Settle(Table(c, kind)).existing)
  {
    BatchEntries(kind, g, b, c.pending);
    BatchExtDiff(c, b, desired, kind);
    EntriesSettle(kind, Table(c, kind), g, b.adds, b.deletes);
  }

  /** They make the groups or meters the wanted ones. */
  lemma SyncEntries(kind: Kind, g: map<nat, string>, sent: seq<Msg>, c: Ctl, desired: FlowTable, nbCfg: int, b: Batch)
    requires IsBatch(b, c, desired) && Ext.Valid(Table(c, kind))
    requires Agree(EntriesAfter(kind, g, sent), Table(c, kind).existing)
    ensures Agree(EntriesAfter(kind, g, sent + Put(c, desired, nbCfg, b).1), Ext.Settle(Table(c, kind)).existing)
  {
    PutEntries(kind, g, sent, c, desired, nbCfg, b);
    BatchSettles(kind, EntriesAfter(kind, g, sent), c, desired, b);
  }

  lemma SyncAfterPut(s: Sys, desired: FlowTable, nbCfg: int, batch: Batch, backlog: bool)
    requires InSync(s) && IdsOk(s) && (CanPut(s.ctl, backlog) ==> IsBatch(batch, s.ctl, desired))
    ensures InSync(PutStep(s, desired, nbCfg, batch, backlog))
  {
    if s.seqno == s.net.epoch && CanPut(s.ctl, backlog) {
      SyncFlows(s.net.flows0, s.net.sent, s.ctl, desired, nbCfg, batch);
      SyncEntries(Group, s.net.groups0, s.net.sent, s.ctl, desired, nbCfg, batch);
      SyncEntries(Meter, s.net.meters0, s.net.sent, s.ctl, desired, nbCfg, batch);
      PutTables(s.ctl, desired, nbCfg, batch);
      PutMsgs(s.ctl, desired, nbCfg, batch);
    }
  }

  lemma AssignKeeps(c: Ctl, kind: Kind, name: string)
    ensures var c1 := DoAssign(c, kind, name);
            && c1.groups.existing == c.groups.existing && c1.meters.existing == c.meters.existing
            && c1.installed == c.installed && c1.state == c.state
  {
  }

  lemma SyncKept(s: Sys, step: Step)
    requires IdsOk(s) && InSync(s) && NoticedOk(s) && Enabled(s, step)
    ensures InSync(Do(s, step)) && NoticedOk(Do(s, step))
  {
    match step
    case Run(receive) => SyncAfterRun(s, receive);
    case AssignId(kind, name) => AssignKeeps(s.ctl, kind, name);
    case DoPut(desired, nbCfg, batch, backlog) => SyncAfterPut(s, desired, nbCfg, batch, backlog);
    case _ =>
  }

  // ----- updates in flight

  /** 'net1' has the messages of 'net' and possibly more, none touching flows. */
  ghost predicate Continues(net: Net, net1: Net) {
    && net1.flows0 == net.flows0 && |net.sent| <= |net1.sent| && net1.sent[..|net.sent|] == net.sent
    && QuietFrom(net1.sent, |net.sent|)
  }

  lemma TrackedLater(net: Net, log: seq<PutRecord>, net1: Net, log1: seq<PutRecord>, u: Update)
    requires net1.flows0 == net.flows0 && |net.sent| <= |net1.sent| && net1.sent[..|net.sent|] == net.sent
    requires forall r :: r in log ==> r in log1
    requires exists j: nat :: TrackedAt(net, log, u, j)
    ensures exists j: nat :: TrackedAt(net1, log1, u, j)
  {
    var j: nat :| TrackedAt(net, log, u, j);
    assert net1.sent[..j + 1] == net.sent[..j + 1];
    assert TrackedAt(net1, log1, u, j);
  }

  lemma LastLater(net: Net, net1: Net, u: Update)
    requires Continues(net, net1) && exists j: nat :: LastAt(net, u, j)
    ensures exists j: nat :: LastAt(net1, u, j)
  {
    var j: nat :| LastAt(net, u, j);
    forall i | j + 1 <= i < |net1.sent| ensures NotFlow(net1.sent[i]) {
      if i < |net.sent| {
        assert net1.sent[i] == net.sent[i];
      }
    }
    assert net1.sent[j] == net.sent[j];
    assert LastAt(net1, u, j);
  }

  /** After the last update's barrier is processed nothing is outstanding. */
  lemma LastAnswered(s: Sys, u: Update)
    requires NetOk(s) && Barrier(u.xid) in s.net.sent[..s.net.done] && exists j: nat :: LastAt(s.net, u, j)
    ensures QuietFrom(s.net.sent, s.net.done)
  {
    var j: nat :| LastAt(s.net, u, j);
    var i :| 0 <= i < s.net.done && s.net.sent[i] == Barrier(u.xid);
    assert i == j;
  }

  /** What a turn does to the updates: at most it takes the first one away, when
    * its barrier has been answered. */
  lemma TurnUpdates(c: Ctl, m: Option<Reply>)
    requires c.state == UpdateFlows
    ensures var c1 := Turn(c, m).0;
            if m.Some? && m.value.BarrierReply? && c.updates != [] && c.updates[0].xid == m.value.xid
            then c1.updates == c.updates[1..]
              && c1.curCfg == (if c.updates[0].nbCfg >= c.curCfg then c.updates[0].nbCfg else c.curCfg)
            else c1.updates == c.updates && c1.curCfg == c.curCfg
  {
  }

  /** Updates stay tracked as messages that do not touch flows are sent and the
    * first update is taken away. */
  lemma UpdatesGoOn(s: Sys, t: Sys)
    requires UpdatesOk(s) && Updating(s) && Continues(s.net, t.net) && t.log == s.log
    requires t.ctl.updates == s.ctl.updates || (s.ctl.updates != [] && t.ctl.updates == s.ctl.updates[1..])
    requires t.ctl.updates == [] && t.barriered ==> QuietFrom(t.net.sent, t.net.done)
    ensures UpdatesOk(t)
  {
    forall u | u in t.ctl.updates ensures exists j: nat :: TrackedAt(t.net, t.log, u, j) {
      assert u in s.ctl.updates;
      TrackedLater(s.net, s.log, t.net, t.log, u);
    }
    if t.ctl.updates != [] {
      assert Last(t.ctl.updates) == Last(s.ctl.updates);
      LastLater(s.net, t.net, Last(t.ctl.updates));
    }
  }

  lemma EchoContinues(net: Net, ms: seq<Msg>, replies: seq<Reply>)
    requires ms == [] || ms == [EchoReply]
    ensures var net1 := Send(net.(replies := replies), ms);
            Continues(net, net1) && forall k: nat :: QuietFrom(net.sent, k) ==> QuietFrom(net1.sent, k)
  {
  }

  /** When no update is left, nothing is outstanding. */
  lemma QuietAfterTurn(s: Sys, receive: bool)
    requires NetOk(s) && UpdatesOk(s) && Updating(s) && s.barriered && (receive ==> s.net.replies != [])
    requires DoRun(s, receive).ctl.updates == []
    ensures QuietFrom(s.net.sent, s.net.done)
  {
    TurnUpdates(s.ctl, if receive then Some(s.net.replies[0]) else None);
    if s.ctl.updates != [] {
      assert s.net.replies[0] in s.net.replies;
      LastAnswered(s, s.ctl.updates[0]);
    }
  }

  lemma UpdatesAfterTurn(s: Sys, receive: bool)
    requires NetOk(s) && UpdatesOk(s) && Updating(s) && (receive ==> s.net.replies != [])
    ensures UpdatesOk(DoRun(s, receive))
  {
    var m := if receive then Some(s.net.replies[0]) else None;
    var t := DoRun(s, receive);
    TurnUpdating(s.ctl, m);
    TurnUpdates(s.ctl, m);
    EchoContinues(s.net, Turn(s.ctl, m).1, t.net.replies);
    if t.ctl.updates == [] && s.barriered {
      QuietAfterTurn(s, receive);
    }
    UpdatesGoOn(s, t);
  }

  lemma UpdatesAfterRun(s: Sys, receive: bool)
    requires NetOk(s) && UpdatesOk(s) && s.seqno == s.net.epoch && (receive ==> s.net.replies != [])
    ensures UpdatesOk(DoRun(s, receive))
  {
    var m := if receive then Some(s.net.replies[0]) else None;
    if s.ctl.state == UpdateFlows {
      UpdatesAfterTurn(s, receive);
    } else if s.ctl.state == ClearFlows {
      TurnClearing(s.ctl, m);
    } else {
      TurnNegotiating(s.ctl, m);
    }
  }

  lemma {:induction false} TrackMembers(us: seq<Update>, xid: nat, nbCfg: int, u: Update)
    requires u in Track(us, xid, nbCfg)
    ensures u in us || u == Update(xid, nbCfg)
    decreases |us|
  {
    if us != [] && nbCfg < us[|us| - 1].nbCfg {
      TrackMembers(us[..|us| - 1], xid, nbCfg, u);
    }
  }

  /** A put with messages: the new barrier tracks the new table. */
  lemma UpdatesAfterFullPut(s: Sys, desired: FlowTable, nbCfg: int, batch: Batch)
    requires Updating(s) && UpdatesOk(s) && BatchMsgs(batch, s.ctl.pending) != []
    requires var t := PutStep(s, desired, nbCfg, batch, false); FlowsAfter(s.net.flows0, t.net.sent) == desired
    ensures UpdatesOk(PutStep(s, desired, nbCfg, batch, false))
  {
    var t := PutStep(s, desired, nbCfg, batch, false);
    var end := |t.net.sent| - 1;
    assert t.net.sent[..end + 1] == t.net.sent;
    assert PutRecord(nbCfg, desired) in t.log;
    var mine := Update(s.ctl.nextXid, nbCfg);
    assert TrackedAt(t.net, t.log, mine, end);
    forall u | u in t.ctl.updates ensures exists j: nat :: TrackedAt(t.net, t.log, u, j) {
      TrackMembers(s.ctl.updates, s.ctl.nextXid, nbCfg, u);
      if u != mine {
        TrackedLater(s.net, s.log, t.net, t.log, u);
      }
    }
    assert Last(t.ctl.updates) == mine && LastAt(t.net, mine, end);
  }

  /** A quiet end of the message sequence leaves the flow table alone. */
  lemma QuietFlows(t: FlowTable, sent: seq<Msg>, k: nat)
    requires k <= |sent| && QuietFrom(sent, k)
    ensures FlowsAfter(t, sent[..k]) == FlowsAfter(t, sent)
  {
    assert sent == sent[..k] + sent[k..];
    FlowsConcat(t, sent[..k], sent[k..]);
    FlowsUntouched(FlowsAfter(t, sent[..k]), sent[k..]);
  }

  /** A put without messages: the last update may as well report the new number. */
  lemma UpdatesAfterEmptyPut(s: Sys, desired: FlowTable, nbCfg: int, batch: Batch)
    requires Updating(s) && UpdatesOk(s) && BatchMsgs(batch, s.ctl.pending) == []
    requires FlowsAfter(s.net.flows0, s.net.sent) == desired
    ensures UpdatesOk(PutStep(s, desired, nbCfg, batch, false))
  {
    var t := PutStep(s, desired, nbCfg, batch, false);
    assert t.net.sent == s.net.sent;
    if s.ctl.updates != [] {
      var last := Last(s.ctl.updates);
      var mine := last.(nbCfg := nbCfg);
      var j: nat :| LastAt(s.net, last, j);
      QuietFlows(s.net.flows0, s.net.sent, j + 1);
      assert PutRecord(nbCfg, desired) in t.log;
      assert TrackedAt(t.net, t.log, mine, j);
      assert t.ctl.updates == s.ctl.updates[..|s.ctl.updates| - 1] + [mine];
      assert Last(t.ctl.updates) == mine && LastAt(t.net, mine, j);
      forall u | u in t.ctl.updates ensures exists j: nat :: TrackedAt(t.net, t.log, u, j) {
        if u != mine {
          assert u in s.ctl.updates;
          TrackedLater(s.net, s.log, t.net, t.log, u);
        }
      }
    }
  }

  lemma UpdatesAfterPut(s: Sys, desired: FlowTable, nbCfg: int, batch: Batch, backlog: bool)
    requires IdsOk(s) && InSync(s) && UpdatesOk(s) && (CanPut(s.ctl, backlog) ==> IsBatch(batch, s.ctl, desired))
    ensures UpdatesOk(PutStep(s, desired, nbCfg, batch, backlog))
  {
    if s.seqno == s.net.epoch && CanPut(s.ctl, backlog) {
      SyncAfterPut(s, desired, nbCfg, batch, backlog);
      PutMsgs(s.ctl, desired, nbCfg, batch);
      if BatchMsgs(batch, s.ctl.pending) == [] {
        EmptyBatch(s.ctl, batch, desired);
        UpdatesAfterEmptyPut(s, desired, nbCfg, batch);
      } else {
        UpdatesAfterFullPut(s, desired, nbCfg, batch);
      }
    }
  }

  lemma UpdatesKept(s: Sys, step: Step)
    requires Inv(s) && Enabled(s, step)
    ensures UpdatesOk(Do(s, step))
  {
    var t := Do(s, step);
    match step
    case Run(receive) => UpdatesAfterRun(s, receive);
    case DoPut(desired, nbCfg, batch, backlog) => UpdatesAfterPut(s, desired, nbCfg, batch, backlog);
    case Connect(_, _, _) =>
    case Notice =>
    case _ => UpdatesFramed(s, t);
  }

  lemma UpdatesFramed(s: Sys, t: Sys)
    requires UpdatesOk(s) && t.seqno == s.seqno && t.net.epoch == s.net.epoch && t.ctl.state == s.ctl.state
    requires t.ctl.updates == s.ctl.updates && t.log == s.log && t.barriered == s.barriered
    requires t.net.sent == s.net.sent && t.net.flows0 == s.net.flows0 && t.net.done >= s.net.done
    ensures UpdatesOk(t)
  {
    if Updating(s) {
      forall u | u in t.ctl.updates ensures exists j: nat :: TrackedAt(t.net, t.log, u, j) {
        TrackedLater(s.net, s.log, t.net, t.log, u);
      }
      if t.ctl.updates != [] {
        LastLater(s.net, t.net, Last(t.ctl.updates));
      }
    }
  }

  // ----- zones waiting for a flush

  lemma FlushSentLater(sent: seq<Msg>, more: seq<Msg>, zone: nat, xid: nat)
    requires FlushSent(sent, zone, xid)
    ensures FlushSent(sent + more, zone, xid)
  {
    var i: nat, j: nat :| FlushAt(sent, zone, xid, i, j);
    assert FlushAt(sent + more, zone, xid, i, j);
  }

  /** A turn changes zone entries only on a barrier's answer, and only to say
    * that they have been flushed. */
  lemma TurnZones(c: Ctl, m: Option<Reply>, p: Pending)
    requires p in Turn(c, m).0.pending
    ensures p in c.pending
              || (m.Some? && m.value == BarrierReply(p.xid) && p.state == DbQueued && p.(state := OfSent) in c.pending)
  {
    var c1 := Turn(c, m).0;
    if c1.pending != c.pending {
      assert m.Some? && m.value.BarrierReply? && c1.pending == FlushedAll(c.pending, m.value.xid);
      var i :| 0 <= i < |c1.pending| && c1.pending[i] == p;
      assert p == Flushed(c.pending[i], m.value.xid);
    }
  }

  lemma ZonesAfterRun(s: Sys, receive: bool)
    requires ZonesOk(s) && s.seqno == s.net.epoch && (receive ==> s.net.replies != [])
    ensures ZonesOk(DoRun(s, receive))
  {
    var m := if receive then Some(s.net.replies[0]) else None;
    var t := DoRun(s, receive);
    forall p | p in t.ctl.pending && p.state == OfSent ensures FlushSent(t.net.sent, p.zone, p.xid) {
      TurnZones(s.ctl, m, p);
      FlushSentLater(s.net.sent, Turn(s.ctl, m).1, p.zone, p.xid);
    }
  }

  /** A put marks the queued entries as sent, and nothing else. */
  lemma PutZones(c: Ctl, desired: FlowTable, nbCfg: int, b: Batch, p: Pending)
    requires IsBatch(b, c, desired) && p in Put(c, desired, nbCfg, b).0.pending
    ensures || (p in c.pending && p.state != OfQueued)
            || (BatchMsgs(b, c.pending) != [] && p.state == OfSent && p.xid == c.nextXid
                && FlushZone(p.zone) in FlushMsgs(c.pending))
  {
    var c1 := Put(c, desired, nbCfg, b).0;
    if BatchMsgs(b, c.pending) == [] {
      EmptyBatch(c, b, desired);
    } else {
      var i :| 0 <= i < |c1.pending| && c1.pending[i] == p;
      assert p == SentWith(c.pending[i], c.nextXid);
    }
  }

  lemma FlushedInPut(sent: seq<Msg>, b: Batch, ps: seq<Pending>, zone: nat, xid: nat)
    requires FlushZone(zone) in FlushMsgs(ps)
    ensures FlushSent(sent + (BatchMsgs(b, ps) + [Barrier(xid)]), zone, xid)
  {
    var bm := BatchMsgs(b, ps);
    var all := sent + (bm + [Barrier(xid)]);
    var i :| 0 <= i < |FlushMsgs(ps)| && FlushMsgs(ps)[i] == FlushZone(zone);
    assert bm[i] == FlushZone(zone);
    forall k | |sent| + i < k < |all| - 1 ensures !all[k].Barrier? {
      assert all[k] == bm[k - |sent|];
      BatchMember(b, ps, bm[k - |sent|]);
    }
    assert FlushAt(all, zone, xid, |sent| + i, |all| - 1);
  }

  lemma ZonesAfterPut(s: Sys, desired: FlowTable, nbCfg: int, batch: Batch, backlog: bool)
    requires ZonesOk(s) && (CanPut(s.ctl, backlog) ==> IsBatch(batch, s.ctl, desired))
    ensures ZonesOk(PutStep(s, desired, nbCfg, batch, backlog))
  {
    var t := PutStep(s, desired, nbCfg, batch, backlog);
    if s.seqno == s.net.epoch && CanPut(s.ctl, backlog) {
      PutMsgs(s.ctl, desired, nbCfg, batch);
      forall p | p in t.ctl.pending && p.state == OfSent ensures FlushSent(t.net.sent, p.zone, p.xid) {
        PutZones(s.ctl, desired, nbCfg, batch, p);
        if p in s.ctl.pending {
          FlushSentLater(s.net.sent, Put(s.ctl, desired, nbCfg, batch).1, p.zone, p.xid);
        } else {
          FlushedInPut(s.net.sent, batch, s.ctl.pending, p.zone, p.xid);
        }
      }
    }
  }

  lemma ZonesKept(s: Sys, step: Step)
    requires ZonesOk(s) && s.seqno <= s.net.epoch && Enabled(s, step)
    ensures ZonesOk(Do(s, step))
  {
    match step
    case Run(receive) => ZonesAfterRun(s, receive);
    case DoPut(desired, nbCfg, batch, backlog) => ZonesAfterPut(s, desired, nbCfg, batch, backlog);
    case _ =>
  }

  // ----- every run

  lemma InvKept(s: Sys, step: Step)
    requires Inv(s) && Enabled(s, step)
    ensures Inv(Do(s, step))
  {
    IdsKept(s, step);
    NetKept(s, step);
    SyncKept(s, step);
    UpdatesKept(s, step);
    ZonesKept(s, step);
  }

  /** A run: states, each reached from the one before by a step. */
  ghost predicate IsRun(run: seq<Sys>) {
    && run != [] && Init(run[0])
    && forall i :: 0 <= i < |run| - 1 ==> Next(run[i], run[i + 1])
  }

  /** The step that led to state 'i' of a run. */
  lemma StepTo(run: seq<Sys>, i: nat) returns (step: Step)
    requires IsRun(run) && 0 < i < |run|
    ensures Enabled(run[i - 1], step) && run[i] == Do(run[i - 1], step)
  {
    assert Next(run[i - 1], run[i - 1 + 1]);
    step :| Enabled(run[i - 1], step) && run[i] == Do(run[i - 1], step);
  }

  /** The invariant holds in every state of every run. */
  lemma {:induction false} InvAlways(run: seq<Sys>, i: nat)
    requires IsRun(run) && i < |run|
    ensures Inv(run[i])
  {
    if i == 0 {
      InitInv(run[0]);
    } else {
      InvAlways(run, i - 1);
      var step := StepTo(run, i);
      InvKept(run[i - 1], step);
    }
  }

  lemma NoticedAlways(run: seq<Sys>, i: nat)
    requires IsRun(run) && i < |run|
    ensures NoticedOk(run[i])
  {
    InvAlways(run, i);
  }
}
