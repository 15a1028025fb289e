/** The controller's side of the switch connection (controller/ofctrl.c), as
  * steps on values: the connection state machine, the put, and the conntrack
  * zone entries that wait for a flush. */
module Controller {
  import opened Util
  import opened OpenFlow
  import Ext = ExtendTables

  // ----- state

  datatype ConnState = New | TlvTableRequested | TlvTableModSent | ClearFlows | UpdateFlows

  /** An in-flight update: the barrier behind it and the configuration number
    * that may be reported once the barrier is answered. */
  datatype Update = Update(xid: nat, nbCfg: int)

  datatype ZoneState = OfQueued | OfSent | DbQueued | DbSent

  datatype Pending = Pending(user: string, zone: nat, add: bool, xid: nat, state: ZoneState)

  datatype Ctl = Ctl(
    state: ConnState,
    xid: nat, xid2: nat,        // transactions awaited during negotiation
    nextXid: nat,
    installed: FlowTable,
    groups: Ext.Ext, meters: Ext.Ext,
    updates: seq<Update>,
    curCfg: int,
    pending: seq<Pending>)

  datatype TlvAnswer = Found | FreeSlot | Unusable

  /** What the switch sends.  'race' marks the errors that mean another
    * controller was faster. */
  datatype Reply =
    | BarrierReply(xid: nat)
    | TlvReply(xid: nat, answer: TlvAnswer)
    | ErrorReply(xid: nat, race: bool)
    | EchoRequest(xid: nat)
    | OtherReply(xid: nat)

  // ----- the connection state machine

  /** run_S_*(): the new state and the messages queued. */
  function RunState(c: Ctl): (r: (Ctl, seq<Msg>)) {
    match c.state
    case New =>
      (c.(state := TlvTableRequested, xid := c.nextXid, nextXid := c.nextXid + 1), [TlvRequest(c.nextXid)])
    case ClearFlows =>
      (c.(state := UpdateFlows, installed := map[], updates := [],
          groups := Ext.ClearExisting(c.groups), meters := Ext.ClearExisting(c.meters)),
       [DeleteAllFlows, EntryDeleteAll(Group), EntryDeleteAll(Meter)])
    case _ => (c, [])
  }

  /** ofctrl_recv(): only echo requests are answered. */
  function Ignore(c: Ctl, m: Reply): (r: (Ctl, seq<Msg>)) {
    (c, if m.EchoRequest? then [EchoReply] else [])
  }

  function RecvRequested(c: Ctl, m: Reply): (r: (Ctl, seq<Msg>)) {
    if m.xid != c.xid then Ignore(c, m)
    else if m.TlvReply? && m.answer == FreeSlot then
      (c.(state := TlvTableModSent, xid := c.nextXid, xid2 := c.nextXid + 1, nextXid := c.nextXid + 2),
       [TlvMod(c.nextXid), Barrier(c.nextXid + 1)])
    else (c.(state := ClearFlows), [])
  }

  function RecvModSent(c: Ctl, m: Reply): (r: (Ctl, seq<Msg>)) {
    if m.xid != c.xid && m.xid != c.xid2 then Ignore(c, m)
    else if m.xid == c.xid2 && m.BarrierReply? then (c.(state := ClearFlows), [])
    else if m.xid == c.xid && m.ErrorReply? && m.race then (c.(state := New), [])
    else (c.(state := ClearFlows), [])
  }

  /** An entry whose flush was sent with barrier 'xid' has been flushed. */
  function Flushed(p: Pending, xid: nat): (r: Pending) {
    if p.state == OfSent && p.xid == xid then p.(state := DbQueued) else p
  }

  function FlushedAll(ps: seq<Pending>, xid: nat): (r: seq<Pending>)
    ensures |r| == |ps| && forall i :: 0 <= i < |ps| ==> r[i] == Flushed(ps[i], xid)
  {
    seq(|ps|, i requires 0 <= i < |ps| => Flushed(ps[i], xid))
  }

  function RecvUpdate(c: Ctl, m: Reply): (r: (Ctl, seq<Msg>)) {
    if m.BarrierReply? && c.updates != [] then
      var front := c.updates[0];
      var c1 :=
        if front.xid == m.xid then
          c.(curCfg := if front.nbCfg >= c.curCfg then front.nbCfg else c.curCfg, updates := c.updates[1..])
        else c;
      (c1.(pending := FlushedAll(c.pending, m.xid)), [])
    else Ignore(c, m)
  }

  /** recv_S_*() */
  function Recv(c: Ctl, m: Reply): (r: (Ctl, seq<Msg>))
    requires c.state != New
  {
    match c.state
    case TlvTableRequested => RecvRequested(c, m)
    case TlvTableModSent => RecvModSent(c, m)
    case ClearFlows => Ignore(c, m)
    case UpdateFlows => RecvUpdate(c, m)
  }

  /** One turn of the loop in ofctrl_run(): let the state machine run, then
    * process a message if there is one. */
  function Turn(c: Ctl, m: Option<Reply>): (r: (Ctl, seq<Msg>)) {
    var (c1, ms1) := RunState(c);
    match m
    case None => (c1, ms1)
    case Some(reply) =>
      assert c1.state != New;
      var (c2, ms2) := Recv(c1, reply);
      (c2, ms1 + ms2)
  }

  /** A turn clears the installed entries or leaves the tables alone. */
  lemma TurnTables(c: Ctl, m: Option<Reply>)
    ensures var c1 := Turn(c, m).0;
            && c1.groups == (if c.state == ClearFlows then Ext.ClearExisting(c.groups) else c.groups)
            && c1.meters == (if c.state == ClearFlows then Ext.ClearExisting(c.meters) else c.meters)
  {
  }

  function After(ms: seq<Msg>, got: nat, r: (Ctl, seq<Msg>, nat)): (r1: (Ctl, seq<Msg>, nat)) {
    (r.0, ms + r.1, got + r.2)
  }

  const MAX_TURNS: nat := 50

  /** ofctrl_run() on what has arrived: up to 'n' turns while there is progress.
    * The last part of the result is how many messages were received. */
  function Turns(c: Ctl, replies: seq<Reply>, n: nat): (r: (Ctl, seq<Msg>, nat))
    ensures r.2 <= |replies|
    decreases n
  {
    if n == 0 then (c, [], 0)
    else
      var m := if replies != [] then Some(replies[0]) else None;
      var (c1, ms) := Turn(c, m);
      var got := if replies != [] then 1 else 0;
      if c1.state != c.state || got == 1 then After(ms, got, Turns(c1, replies[got..], n - 1))
      else (c1, ms, got)
  }

  function Requeued(p: Pending): (r: Pending) {
    if p.state == OfSent then p.(state := OfQueued) else p
  }

  function RequeuedAll(ps: seq<Pending>): (r: seq<Pending>)
    ensures |r| == |ps| && forall i :: 0 <= i < |ps| ==> r[i] == Requeued(ps[i])
  {
    seq(|ps|, i requires 0 <= i < |ps| => Requeued(ps[i]))
  }

  /** The start of ofctrl_run() on a new connection: flushes that were not
    * confirmed will be sent again. */
  function Reconnected(c: Ctl): (r: Ctl) {
    c.(state := New, pending := RequeuedAll(c.pending))
  }

  // ----- put

  /** The parts of a put, each in the order of some walk over a hash table. */
  datatype Batch = Batch(adds: seq<(Kind, nat, string)>, flows: seq<FlowCommand>, deletes: seq<(Kind, nat)>)

  function FlushMsgs(ps: seq<Pending>): (r: seq<Msg>)
    ensures forall m :: m in r <==> exists p :: p in ps && p.state == OfQueued && m == FlushZone(p.zone)
  {
    if ps == [] then []
    else
      assert ps == [ps[0]] + ps[1..];
      (if ps[0].state == OfQueued then [FlushZone(ps[0].zone)] else []) + FlushMsgs(ps[1..])
  }

  function AddMsgs(adds: seq<(Kind, nat, string)>): (r: seq<Msg>)
    ensures |r| == |adds| && forall i :: 0 <= i < |adds| ==> r[i] == EntryAdd(adds[i].0, adds[i].1, adds[i].2)
  {
    seq(|adds|, i requires 0 <= i < |adds| => EntryAdd(adds[i].0, adds[i].1, adds[i].2))
  }

  function DeleteMsgs(deletes: seq<(Kind, nat)>): (r: seq<Msg>)
    ensures |r| == |deletes| && forall i :: 0 <= i < |deletes| ==> r[i] == EntryDelete(deletes[i].0, deletes[i].1)
  {
    seq(|deletes|, i requires 0 <= i < |deletes| => EntryDelete(deletes[i].0, deletes[i].1))
  }

  function Table(c: Ctl, kind: Kind): (r: Ext.Ext) {
    if kind == Group then c.groups else c.meters
  }

  /** Every wanted entry that is not installed, once. */
  ghost predicate IsAdds(adds: seq<(Kind, nat, string)>, c: Ctl) {
    && (forall a :: a in adds ==>
          a.2 in Table(c, a.0).desired && a.2 !in Table(c, a.0).existing && a.1 == Table(c, a.0).desired[a.2].id)
    && (forall k, n :: n in Table(c, k).desired && n !in Table(c, k).existing ==>
          (k, Table(c, k).desired[n].id, n) in adds)
    && (forall i, j :: 0 <= i < j < |adds| ==> adds[i] != adds[j])
  }

  /** Every installed entry that is not wanted, once. */
  ghost predicate IsDeletes(deletes: seq<(Kind, nat)>, c: Ctl) {
    && (forall d :: d in deletes ==>
          exists n :: n in Table(c, d.0).existing && n !in Table(c, d.0).desired && d.1 == Table(c, d.0).existing[n])
    && (forall k, n :: n in Table(c, k).existing && n !in Table(c, k).desired ==>
          (k, Table(c, k).existing[n]) in deletes)
    && (forall i, j :: 0 <= i < j < |deletes| ==> deletes[i] != deletes[j])
  }

  ghost predicate IsBatch(b: Batch, c: Ctl, desired: FlowTable) {
    IsAdds(b.adds, c) && IsDiff(b.flows, c.installed, desired) && IsDeletes(b.deletes, c)
  }

  /** The messages of a put, before the barrier. */
  function BatchMsgs(b: Batch, ps: seq<Pending>): (r: seq<Msg>) {
    FlushMsgs(ps) + AddMsgs(b.adds) + FlowMods(b.flows) + DeleteMsgs(b.deletes)
  }

  lemma NoneQueued(b: Batch, ps: seq<Pending>)
    ensures BatchMsgs(b, ps) == [] ==> forall p :: p in ps ==> p.state != OfQueued
  {
    if BatchMsgs(b, ps) == [] {
      assert |BatchMsgs(b, ps)| == |FlushMsgs(ps)| + |b.adds| + |b.flows| + |b.deletes|;
      forall p | p in ps ensures p.state != OfQueued {
        assert p.state == OfQueued ==> FlushZone(p.zone) in FlushMsgs(ps);
      }
    }
  }

  /** Updates for later configurations are dropped; one for the same
    * configuration now waits for the new barrier; else a new one is added. */
  function Track(us: seq<Update>, xid: nat, nbCfg: int): (r: seq<Update>)
    ensures r != [] && r[|r| - 1] == Update(xid, nbCfg)
  {
    if us == [] then [Update(xid, nbCfg)]
    else
      var last := us[|us| - 1];
      if nbCfg < last.nbCfg then Track(us[..|us| - 1], xid, nbCfg)
      else if nbCfg == last.nbCfg then us[..|us| - 1] + [last.(xid := xid)]
      else us + [Update(xid, nbCfg)]
  }

  function SentWith(p: Pending, xid: nat): (r: Pending) {
    if p.state == OfQueued then p.(state := OfSent, xid := xid) else p
  }

  function SentAll(ps: seq<Pending>, xid: nat): (r: seq<Pending>)
    ensures |r| == |ps| && forall i :: 0 <= i < |ps| ==> r[i] == SentWith(ps[i], xid)
  {
    seq(|ps|, i requires 0 <= i < |ps| => SentWith(ps[i], xid))
  }

  /** Barrier ids are not 0, which marks a flush that has no barrier yet. */
  ghost predicate Stamped(c: Ctl) {
    c.nextXid > 0 && forall p :: p in c.pending && p.state == OfSent ==> p.xid != 0
  }

  function CanPut(c: Ctl, backlog: bool): (r: bool) {
    c.state == UpdateFlows && !backlog
  }

  /** ofctrl_put() when it may not send: everything wanted is forgotten. */
  function PutRefused(c: Ctl): (r: Ctl) {
    c.(groups := Ext.ClearDesired(c.groups), meters := Ext.ClearDesired(c.meters))
  }

  /** The end of ofctrl_put(): a barrier behind the messages, and which update
    * or configuration number this leads to. */
  function Finish(c: Ctl, ms: seq<Msg>, nbCfg: int): (r: (Ctl, seq<Msg>)) {
    if ms != [] then
      (c.(pending := SentAll(c.pending, c.nextXid),
          updates := Track(c.updates, c.nextXid, nbCfg), nextXid := c.nextXid + 1),
       ms + [Barrier(c.nextXid)])
    else if c.updates != [] then
      (c.(updates := c.updates[..|c.updates| - 1] + [c.updates[|c.updates| - 1].(nbCfg := nbCfg)]), [])
    else
      (c.(curCfg := nbCfg), [])
  }

  /** ofctrl_put() with the given batch: the new state and the messages queued. */
  function Put(c: Ctl, desired: FlowTable, nbCfg: int, b: Batch): (r: (Ctl, seq<Msg>)) {
    Finish(c.(installed := desired, groups := Ext.Settle(c.groups), meters := Ext.Settle(c.meters)),
           BatchMsgs(b, c.pending), nbCfg)
  }
}
