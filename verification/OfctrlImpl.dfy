/** The controller's side of the switch connection in the form of
  * controller/ofctrl.c: fields that every step changes in place, and loops over
  * the tables. */
module OfctrlImpl {
  import opened Util
  import opened OpenFlow
  import C = Controller
  import Ext = ExtendTables
  import opened ExtendTableImpl

  // ----- the flow table walk

  /** Part of the walk over the installed flows: 'done' have been dealt with. */
  ghost predicate Walking(cs: seq<FlowCommand>, was: FlowTable, wanted: FlowTable, done: set<FlowKey>,
                          installed: FlowTable, left: FlowTable)
  {
    && (forall c :: c in cs ==> Justified(c, was, wanted) && c.key in done)
    && (forall k :: k in done && Differs(k, was, wanted) ==> Mentions(cs, k))
    && (forall i, j :: 0 <= i < j < |cs| ==> cs[i].key != cs[j].key)
    && (forall k :: if k in done then SameAt(installed, wanted, k) && k !in left
                    else SameAt(installed, was, k) && SameAt(left, wanted, k))
  }

  /** What the walk does at 'k': delete, modify, add or leave alone. */
  function CommandsAt(k: FlowKey, was: FlowTable, wanted: FlowTable): (r: seq<FlowCommand>)
    ensures Differs(k, was, wanted) <==> r != []
    ensures r != [] ==> |r| == 1 && r[0].key == k && Justified(r[0], was, wanted)
  {
    if k in was then
      if k !in wanted then [DeleteStrict(k)]
      else if was[k] != wanted[k] then [ModifyStrict(k, wanted[k])]
      else []
    else if k in wanted then [AddFlow(k, wanted[k])]
    else []
  }

  lemma WalkCommands(cs: seq<FlowCommand>, was: FlowTable, wanted: FlowTable, done: set<FlowKey>,
                     installed: FlowTable, left: FlowTable, k: FlowKey)
    requires Walking(cs, was, wanted, done, installed, left) && k !in done
    ensures var cs1 := cs + CommandsAt(k, was, wanted);
            && (forall c :: c in cs1 ==> Justified(c, was, wanted) && c.key in done + {k})
            && (forall k1 :: k1 in done + {k} && Differs(k1, was, wanted) ==> Mentions(cs1, k1))
            && (forall i, j :: 0 <= i < j < |cs1| ==> cs1[i].key != cs1[j].key)
  {
    var at := CommandsAt(k, was, wanted);
    var cs1 := cs + at;
    forall k1 | k1 in done + {k} && Differs(k1, was, wanted) ensures Mentions(cs1, k1) {
      if k1 == k {
        assert at[0] in cs1;
      } else {
        var c :| c in cs && c.key == k1;
        assert c in cs1;
      }
    }
  }

  lemma WalkStep(cs: seq<FlowCommand>, was: FlowTable, wanted: FlowTable, done: set<FlowKey>,
                 installed: FlowTable, left: FlowTable, k: FlowKey, installed1: FlowTable, left1: FlowTable)
    requires Walking(cs, was, wanted, done, installed, left) && k !in done
    requires SameAt(installed1, wanted, k) && k !in left1
    requires forall k1 :: k1 != k ==> SameAt(installed1, installed, k1) && SameAt(left1, left, k1)
    ensures Walking(cs + CommandsAt(k, was, wanted), was, wanted, done + {k}, installed1, left1)
  {
    WalkCommands(cs, was, wanted, done, installed, left, k);
    forall k1 ensures if k1 in done + {k} then SameAt(installed1, wanted, k1) && k1 !in left1
                      else SameAt(installed1, was, k1) && SameAt(left1, wanted, k1) {
      assert k1 != k ==> SameAt(installed1, installed, k1) && SameAt(left1, left, k1);
    }
  }

  /** The bodies of the two walks, at 'k'. */
  lemma WalkBody(cs: seq<FlowCommand>, was: FlowTable, wanted: FlowTable, done: set<FlowKey>,
                 installed: FlowTable, left: FlowTable, k: FlowKey)
    requires Walking(cs, was, wanted, done, installed, left) && (k in left || (k in was && k !in done))
    ensures k !in done && (k in was ==> k in installed && installed[k] == was[k])
    ensures k in was && k !in left ==> Walking(cs + [DeleteStrict(k)], was, wanted, done + {k}, installed - {k}, left)
    ensures k in was && k in left && installed[k] != left[k] ==>
              Walking(cs + [ModifyStrict(k, left[k])], was, wanted, done + {k}, installed[k := left[k]], left - {k})
    ensures k in was && k in left && installed[k] == left[k] ==>
              Walking(cs, was, wanted, done + {k}, installed, left - {k})
    ensures k !in was && k in left ==>
              Walking(cs + [AddFlow(k, left[k])], was, wanted, done + {k}, installed[k := left[k]], left - {k})
  {
    WalkAt(cs, was, wanted, done, installed, left, k);
    var cs1 := CommandsAt(k, was, wanted);
    if k !in left {
      assert cs1 == [DeleteStrict(k)];
      WalkStep(cs, was, wanted, done, installed, left, k, installed - {k}, left);
    } else if k in was && installed[k] == left[k] {
      assert cs + cs1 == cs;
      WalkStep(cs, was, wanted, done, installed, left, k, installed, left - {k});
    } else {
      assert cs1 == if k in was then [ModifyStrict(k, left[k])] else [AddFlow(k, left[k])];
      WalkStep(cs, was, wanted, done, installed, left, k, installed[k := left[k]], left - {k});
    }
  }

  lemma WalkOver(cs: seq<FlowCommand>, was: FlowTable, wanted: FlowTable, done: set<FlowKey>, installed: FlowTable,
                 left: FlowTable)
    requires Walking(cs, was, wanted, done, installed, left)
    requires forall k :: k in was || k in wanted ==> k in done
    ensures IsDiff(cs, was, wanted) && installed == wanted
  {
    forall k ensures SameAt(installed, wanted, k) { }
    forall k ensures k in installed <==> k in wanted { assert SameAt(installed, wanted, k); }
    forall k | k in installed ensures installed[k] == wanted[k] { assert SameAt(installed, wanted, k); }
    forall k | Differs(k, was, wanted) ensures Mentions(cs, k) { assert k in done; }
  }

  // ----- the controller

  class Ofctrl {
    var state: C.ConnState
    var xid: nat
    var xid2: nat
    var nextXid: nat
    var installed: FlowTable
    const groups: ExtendTable
    const meters: ExtendTable
    var updates: seq<C.Update>
    var curCfg: int
    var pending: seq<C.Pending>

    ghost predicate Ready()
      reads groups`ids, meters`ids, groups.bitmap, meters.bitmap
    {
      groups != meters && groups.bitmap != meters.bitmap && groups.Ready() && meters.Ready()
    }

    ghost predicate IdsInRange()
      reads groups, meters
    {
      Ext.InRange(groups.View()) && Ext.InRange(meters.View())
    }

    /** The controller as a value. */
    ghost function View(): (r: C.Ctl)
      reads this, groups, meters
    {
      C.Ctl(state, xid, xid2, nextXid, installed, groups.View(), meters.View(), updates, curCfg, pending)
    }

    constructor ()
      ensures Ready() && IdsInRange() && fresh(groups) && fresh(meters) && fresh(groups.bitmap) && fresh(meters.bitmap)
      ensures View() == C.Ctl(C.New, 0, 0, 1, map[], Ext.EMPTY, Ext.EMPTY, [], 0, [])
    {
      state, xid, xid2, nextXid, installed := C.New, 0, 0, 1, map[];
      updates, curCfg, pending := [], 0, [];
      var g := new ExtendTable();
      var m := new ExtendTable();
      groups, meters := g, m;
      new;
    }

    // ----- the connection state machine

    method RunState() returns (ms: seq<Msg>)
      requires Ready()
      requires IdsInRange()
      modifies this, groups, meters, groups.bitmap, meters.bitmap
      ensures Ready()
      ensures (View(), ms) == C.RunState(old(View()))
    {
      ms := [];
      if state == C.New {
        ms := [TlvRequest(nextXid)];
        xid, nextXid, state := nextXid, nextXid + 1, C.TlvTableRequested;
      } else if state == C.ClearFlows {
        ms := ClearFlows();
      }
    }

    method ClearFlows() returns (ms: seq<Msg>)
      requires Ready()
      requires IdsInRange() && state == C.ClearFlows
      modifies this, groups, meters, groups.bitmap, meters.bitmap
      ensures Ready()
      ensures (View(), ms) == C.RunState(old(View()))
    {
      ms := [DeleteAllFlows];
      installed := map[];
      ms := ms + [EntryDeleteAll(Group)];
      groups.ClearExisting();
      ms := ms + [EntryDeleteAll(Meter)];
      assert meters.View() == old(meters.View());
      meters.ClearExisting();
      DropUpdates();
      state := C.UpdateFlows;
      assert ms == [DeleteAllFlows, EntryDeleteAll(Group), EntryDeleteAll(Meter)];
    }

    method DropUpdates()
      modifies this`updates
      ensures updates == []
    {
      while updates != []
        decreases |updates|
      {
        updates := updates[1..];
      }
    }

    method Ignore(m: C.Reply) returns (ms: seq<Msg>)
      ensures ms == C.Ignore(View(), m).1
    {
      ms := if m.EchoRequest? then [EchoReply] else [];
    }

    /** Entries whose flush was sent with barrier 'x' have been flushed. */
    method MarkFlushed(x: nat)
      modifies this`pending
      ensures pending == C.FlushedAll(old(pending), x)
    {
      var i := 0;
      while i < |pending|
        invariant 0 <= i <= |pending| == |old(pending)|
        invariant forall k :: 0 <= k < i ==> pending[k] == C.Flushed(old(pending)[k], x)
        invariant forall k :: i <= k < |pending| ==> pending[k] == old(pending)[k]
      {
        if pending[i].state == C.OfSent && pending[i].xid == x {
          pending := pending[i := pending[i].(state := C.DbQueued)];
        }
        i := i + 1;
      }
    }

    /** Unconfirmed flushes will be sent again. */
    method Requeue()
      modifies this`pending
      ensures pending == C.RequeuedAll(old(pending))
    {
      var i := 0;
      while i < |pending|
        invariant 0 <= i <= |pending| == |old(pending)|
        invariant forall k :: 0 <= k < i ==> pending[k] == C.Requeued(old(pending)[k])
        invariant forall k :: i <= k < |pending| ==> pending[k] == old(pending)[k]
      {
        if pending[i].state == C.OfSent {
          pending := pending[i := pending[i].(state := C.OfQueued)];
        }
        i := i + 1;
      }
    }

    method RecvRequested(m: C.Reply) returns (ms: seq<Msg>)
      modifies this`state, this`xid, this`xid2, this`nextXid
      ensures (View(), ms) == C.RecvRequested(old(View()), m)
    {
      if m.xid != xid {
        ms := Ignore(m);
      } else if m.TlvReply? && m.answer == C.FreeSlot {
        xid, xid2 := nextXid, nextXid + 1;
        nextXid := nextXid + 2;
        ms := [TlvMod(xid), Barrier(xid2)];
        state := C.TlvTableModSent;
      } else {
        ms, state := [], C.ClearFlows;
      }
    }

    method RecvModSent(m: C.Reply) returns (ms: seq<Msg>)
      modifies this`state
      ensures (View(), ms) == C.RecvModSent(old(View()), m)
    {
      ms := [];
      if m.xid != xid && m.xid != xid2 {
        ms := Ignore(m);
      } else if m.xid == xid2 && m.BarrierReply? {
        state := C.ClearFlows;
      } else if m.xid == xid && m.ErrorReply? && m.race {
        state := C.New;
      } else {
        state := C.ClearFlows;
      }
    }

    method RecvUpdate(m: C.Reply) returns (ms: seq<Msg>)
      modifies this`updates, this`curCfg, this`pending
      ensures (View(), ms) == C.RecvUpdate(old(View()), m)
    {
      ms := [];
      if m.BarrierReply? && updates != [] {
        var front := updates[0];
        if front.xid == m.xid {
          if front.nbCfg >= curCfg {
            curCfg := front.nbCfg;
          }
          updates := updates[1..];
        }
        MarkFlushed(m.xid);
      } else {
        ms := Ignore(m);
      }
    }

    method Recv(m: C.Reply) returns (ms: seq<Msg>)
      requires state != C.New
      modifies this
      ensures (View(), ms) == C.Recv(old(View()), m)
    {
      match state {
        case TlvTableRequested => ms := RecvRequested(m);
        case TlvTableModSent => ms := RecvModSent(m);
        case ClearFlows => ms := Ignore(m);
        case UpdateFlows => ms := RecvUpdate(m);
      }
    }

    /** One turn of the loop in ofctrl_run(). */
    method Turn(m: Option<C.Reply>) returns (ms: seq<Msg>)
      requires Ready()
      requires IdsInRange()
      modifies this, groups, meters, groups.bitmap, meters.bitmap
      ensures Ready()
      ensures IdsInRange()
      ensures (View(), ms) == C.Turn(old(View()), m)
    {
      ms := RunState();
      C.TurnTables(old(View()), m);
      assert View().state != C.New;
      if m.Some? {
        var answer := Recv(m.value);
        ms := ms + answer;
      }
    }

    /** ofctrl_run(), given what has arrived: at most 50 turns, as long as there
      * is progress.  Returns what is sent and how much was received. */
    method Run(newConnection: bool, replies: seq<C.Reply>) returns (ms: seq<Msg>, got: nat)
      requires Ready()
      requires IdsInRange()
      modifies this, groups, meters, groups.bitmap, meters.bitmap
      ensures Ready()
      ensures IdsInRange() && got <= |replies|
      ensures (View(), ms, got) ==
                C.Turns(if newConnection then C.Reconnected(old(View())) else old(View()), replies, C.MAX_TURNS)
    {
      if newConnection {
        state := C.New;
        Requeue();
      }
      ms, got := RunLoop(replies, C.MAX_TURNS);
    }

    method RunLoop(replies: seq<C.Reply>, limit: nat) returns (ms: seq<Msg>, got: nat)
      requires Ready()
      requires IdsInRange()
      modifies this, groups, meters, groups.bitmap, meters.bitmap
      ensures Ready()
      ensures IdsInRange() && got <= |replies|
      ensures (View(), ms, got) == C.Turns(old(View()), replies, limit)
    {
      ms, got := [], 0;
      ghost var c1 := View();
      ghost var all := C.Turns(c1, replies, limit);
      TurnStart(c1, replies, limit);
      var progress := true;
      var i := 0;
      while progress && i < limit
        invariant Ready()
        invariant IdsInRange() && 0 <= i <= limit && got <= |replies|
        invariant View() == c1
        invariant Turning(all, replies, limit - i, ms, got, c1, progress)
      {
        var before := state;
        var m := if got < |replies| then Some(replies[got]) else None;
        TurnStep(all, replies, limit - i, ms, got, c1);
        var sent := Turn(m);
        c1 := C.Turn(c1, m).0;
        if m.Some? {
          got := got + 1;
        }
        ms := ms + sent;
        progress := before != state || m.Some?;
        i := i + 1;
      }
      TurnEnd(all, replies, limit - i, ms, got, c1, progress);
    }

    // ----- put

    /** Queues a flush for every entry that waits for one. */
    method MarkQueued() returns (ms: seq<Msg>)
      modifies this`pending
      ensures ms == C.FlushMsgs(old(pending)) && pending == C.SentAll(old(pending), 0)
    {
      ghost var was := pending;
      ms := [];
      var i := 0;
      assert was[0..] == was;
      while i < |pending|
        invariant 0 <= i <= |pending| == |was|
        invariant forall k :: 0 <= k < i ==> pending[k] == C.SentWith(was[k], 0)
        invariant forall k :: i <= k < |pending| ==> pending[k] == was[k]
        invariant ms + C.FlushMsgs(was[i..]) == C.FlushMsgs(was)
      {
        assert was[i..] == [was[i]] + was[i + 1..];
        if pending[i].state == C.OfQueued {
          ms := ms + [FlushZone(pending[i].zone)];
          pending := pending[i := pending[i].(state := C.OfSent, xid := 0)];
        }
        i := i + 1;
      }
    }

    /** Stores the barrier with the flushes that were just sent. */
    method StampSent(x: nat)
      modifies this`pending
      ensures |pending| == |old(pending)|
      ensures forall k :: 0 <= k < |pending| ==> pending[k] == Stamp(old(pending)[k], x)
    {
      var i := 0;
      while i < |pending|
        invariant 0 <= i <= |pending| == |old(pending)|
        invariant forall k :: 0 <= k < i ==> pending[k] == Stamp(old(pending)[k], x)
        invariant forall k :: i <= k < |pending| ==> pending[k] == old(pending)[k]
      {
        if pending[i].state == C.OfSent && pending[i].xid == 0 {
          pending := pending[i := pending[i].(xid := x)];
        }
        i := i + 1;
      }
    }

    /** Makes the installed flows equal to the wanted ones.  Returns the commands
      * that do the same to the switch. */
    method InstallFlows(flowTable: FlowTable) returns (cs: seq<FlowCommand>, left: FlowTable)
      modifies this`installed
      ensures IsDiff(cs, old(installed), flowTable) && installed == flowTable && left == map[]
    {
      ghost var was := installed;
      ghost var done: set<FlowKey>;
      cs, left, done := WalkInstalled(flowTable);
      var more, nothing;
      more, nothing, done := WalkLeft(cs, was, flowTable, left, done);
      WalkOver(more, was, flowTable, done, installed, nothing);
      cs, left := more, nothing;
    }

    method WalkInstalled(flowTable: FlowTable) returns (cs: seq<FlowCommand>, left: FlowTable, ghost done: set<FlowKey>)
      modifies this`installed
      ensures done == old(installed).Keys && Walking(cs, old(installed), flowTable, done, installed, left)
    {
      ghost var was := installed;
      cs, left, done := [], flowTable, {};
      var todo := installed.Keys;
      while todo != {}
        invariant todo <= was.Keys && done == was.Keys - todo
        invariant Walking(cs, was, flowTable, done, installed, left)
      {
        var k :| k in todo;
        WalkBody(cs, was, flowTable, done, installed, left, k);
        if k !in left {
          cs := cs + [DeleteStrict(k)];
          installed := installed - {k};
        } else {
          if installed[k] != left[k] {
            cs := cs + [ModifyStrict(k, left[k])];
            installed := installed[k := left[k]];
          }
          left := left - {k};
        }
        done := done + {k};
        todo := todo - {k};
      }
    }

    method WalkLeft(cs0: seq<FlowCommand>, ghost was: FlowTable, ghost wanted: FlowTable, left0: FlowTable,
                    ghost done0: set<FlowKey>)
      returns (cs: seq<FlowCommand>, left: FlowTable, ghost done: set<FlowKey>)
      requires was.Keys <= done0 && Walking(cs0, was, wanted, done0, installed, left0)
      modifies this`installed
      ensures left == map[] && (forall k :: k in was || k in wanted ==> k in done)
      ensures Walking(cs, was, wanted, done, installed, left)
    {
      cs, left, done := cs0, left0, done0;
      while left != map[]
        invariant was.Keys <= done
        invariant Walking(cs, was, wanted, done, installed, left)
        decreases |left|
      {
        var k :| k in left;
        WalkBody(cs, was, wanted, done, installed, left, k);
        cs := cs + [AddFlow(k, left[k])];
        installed := installed[k := left[k]];
        left := left - {k};
        done := done + {k};
      }
      forall k | k in wanted ensures k in done {
        WalkAt(cs, was, wanted, done, installed, left, k);
      }
    }

    /** Tracks an update, from the latest one in flight backward. */
    method TrackUpdate(x: nat, nbCfg: int)
      modifies this`updates
      ensures updates == C.Track(old(updates), x, nbCfg)
    {
      while updates != []
        invariant C.Track(updates, x, nbCfg) == C.Track(old(updates), x, nbCfg)
        decreases |updates|
      {
        var last := updates[|updates| - 1];
        if nbCfg < last.nbCfg {
          updates := updates[..|updates| - 1];
        } else if nbCfg == last.nbCfg {
          updates := updates[..|updates| - 1] + [last.(xid := x)];
          return;
        } else {
          break;
        }
      }
      updates := updates + [C.Update(x, nbCfg)];
    }

    /** ofctrl_put().  Returns the messages queued and what is left of the wanted
      * flow table. */
    method Put(flowTable: FlowTable, nbCfg: int, backlog: bool)
      returns (ms: seq<Msg>, left: FlowTable, ghost batch: C.Batch)
      requires Ready()
      requires Ext.Valid(groups.View()) && Ext.Valid(meters.View()) && C.Stamped(View())
      modifies this, groups, meters, groups.bitmap, meters.bitmap
      ensures Ready()
      ensures left == map[]
      ensures !C.CanPut(old(View()), backlog) ==> View() == C.PutRefused(old(View())) && ms == []
      ensures C.CanPut(old(View()), backlog) ==>
                C.IsBatch(batch, old(View()), flowTable) && (View(), ms) == C.Put(old(View()), flowTable, nbCfg, batch)
    {
      if state != C.UpdateFlows || backlog {
        Refuse();
        ms, left, batch := [], map[], C.Batch([], [], []);
      } else {
        ms, left, batch := PutAccepted(flowTable, nbCfg);
      }
    }

    method PutAccepted(flowTable: FlowTable, nbCfg: int) returns (ms: seq<Msg>, left: FlowTable, ghost batch: C.Batch)
      requires Ready()
      requires Ext.Valid(groups.View()) && Ext.Valid(meters.View()) && C.Stamped(View())
      modifies this, groups, meters, groups.bitmap, meters.bitmap
      ensures Ready()
      ensures left == map[] && C.IsBatch(batch, old(View()), flowTable)
      ensures (View(), ms) == C.Put(old(View()), flowTable, nbCfg, batch)
    {
      ghost var was := pending;
      ms, left, batch := PutBatch(flowTable);
      C.NoneQueued(batch, was);
      ms := FinishPut(ms, nbCfg, was);
    }

    method Refuse()
      requires Ready()
      requires Ext.InRange(groups.View()) && Ext.InRange(meters.View())
      modifies groups, meters, groups.bitmap, meters.bitmap
      ensures Ready()
      ensures View() == C.PutRefused(old(View()))
    {
      groups.ClearDesired();
      assert meters.View() == old(meters.View());
      meters.ClearDesired();
    }

    /** Brings all tables up to date and returns the messages for the switch. */
    method PutBatch(flowTable: FlowTable) returns (ms: seq<Msg>, left: FlowTable, ghost batch: C.Batch)
      requires Ready()
      requires Ext.Valid(groups.View()) && Ext.Valid(meters.View())
      modifies this`pending, this`installed, groups, meters, groups.bitmap, meters.bitmap
      ensures Ready()
      ensures left == map[] && C.IsBatch(batch, old(View()), flowTable) && ms == C.BatchMsgs(batch, old(pending))
      ensures pending == C.SentAll(old(pending), 0) && installed == flowTable
      ensures groups.View() == Ext.Settle(old(groups.View())) && meters.View() == Ext.Settle(old(meters.View()))
    {
      var adds := FindAdds();
      ms := MarkQueued();
      ms := ms + C.AddMsgs(adds);
      var cs;
      cs, left := InstallFlows(flowTable);
      ms := ms + FlowMods(cs);
      var deletes := SettleTables();
      ms := ms + C.DeleteMsgs(deletes);
      batch := C.Batch(adds, cs, deletes);
    }

    method FindAdds() returns (adds: seq<(Kind, nat, string)>)
      requires Ext.Valid(groups.View()) && Ext.Valid(meters.View())
      ensures C.IsAdds(adds, View())
    {
      var groupAdds := groups.Uninstalled();
      var meterAdds := meters.Uninstalled();
      adds := TagAdds(Group, groupAdds) + TagAdds(Meter, meterAdds);
      AddsTagged(View(), groupAdds, meterAdds);
    }

    method SettleTables() returns (deletes: seq<(Kind, nat)>)
      requires Ready()
      requires Ext.Valid(groups.View()) && Ext.Valid(meters.View())
      modifies groups, meters, groups.bitmap, meters.bitmap
      ensures Ready()
      ensures forall c: C.Ctl :: c.groups == old(groups.View()) && c.meters == old(meters.View()) ==>
                C.IsDeletes(deletes, c)
      ensures groups.View() == Ext.Settle(old(groups.View())) && meters.View() == Ext.Settle(old(meters.View()))
    {
      ghost var x, y := groups.View(), meters.View();
      var groupDeletes := groups.Settle();
      assert meters.View() == y;
      var meterDeletes := meters.Settle();
      deletes := TagDeletes(Group, groupDeletes) + TagDeletes(Meter, meterDeletes);
      forall c: C.Ctl | c.groups == x && c.meters == y ensures C.IsDeletes(deletes, c) {
        DeletesTagged(c, groupDeletes, meterDeletes);
      }
    }

    /** Tracks what was put, given the messages 'ms' that it took. */
    method FinishPut(ms: seq<Msg>, nbCfg: int, ghost was: seq<C.Pending>) returns (all: seq<Msg>)
      requires nextXid > 0 && (forall p :: p in was && p.state == C.OfSent ==> p.xid != 0)
      requires pending == C.SentAll(was, 0) && (ms == [] ==> forall p :: p in was ==> p.state != C.OfQueued)
      modifies this`pending, this`nextXid, this`updates, this`curCfg
      ensures (View(), all) == C.Finish(old(View()).(pending := was), ms, nbCfg)
    {
      all := ms;
      if ms != [] {
        var x := nextXid;
        nextXid := nextXid + 1;
        all := all + [Barrier(x)];
        StampSent(x);
        assert pending == C.SentAll(was, x);
        TrackUpdate(x, nbCfg);
      } else {
        assert pending == was;
        if updates != [] {
          var last := |updates| - 1;
          updates := updates[..last] + [updates[last].(nbCfg := nbCfg)];
        } else {
          curCfg := nbCfg;
        }
      }
    }
  }

  /** An entry that has no barrier yet gets 'x'. */
  function Stamp(p: C.Pending, x: nat): (r: C.Pending) {
    if p.state == C.OfSent && p.xid == 0 then p.(xid := x) else p
  }

  function TagAdds(kind: Kind, adds: seq<(nat, string)>): (r: seq<(Kind, nat, string)>)
    ensures |r| == |adds| && forall i :: 0 <= i < |adds| ==> r[i] == (kind, adds[i].0, adds[i].1)
  {
    seq(|adds|, i requires 0 <= i < |adds| => (kind, adds[i].0, adds[i].1))
  }

  function TagDeletes(kind: Kind, deletes: seq<nat>): (r: seq<(Kind, nat)>)
    ensures |r| == |deletes| && forall i :: 0 <= i < |deletes| ==> r[i] == (kind, deletes[i])
  {
    seq(|deletes|, i requires 0 <= i < |deletes| => (kind, deletes[i]))
  }

  /** Exactly the wanted entries of a table that are not installed, once each. */
  ghost predicate AreAdds(adds: seq<(nat, string)>, x: Ext.Ext) {
    && (forall id, n :: (id, n) in adds <==> n in x.desired && n !in x.existing && id == x.desired[n].id)
    && (forall i, j :: 0 <= i < j < |adds| ==> adds[i] != adds[j])
  }

  lemma AddsTagged(c: C.Ctl, groupAdds: seq<(nat, string)>, meterAdds: seq<(nat, string)>)
    requires AreAdds(groupAdds, c.groups) && AreAdds(meterAdds, c.meters)
    ensures C.IsAdds(TagAdds(Group, groupAdds) + TagAdds(Meter, meterAdds), c)
  {
    var g, m := TagAdds(Group, groupAdds), TagAdds(Meter, meterAdds);
    forall a: (Kind, nat, string) | a in g + m
      ensures a.2 in C.Table(c, a.0).desired && a.2 !in C.Table(c, a.0).existing
      ensures a.1 == C.Table(c, a.0).desired[a.2].id {
      assert (a.1, a.2) in if a.0 == Group then groupAdds else meterAdds;
    }
    forall k, n | n in C.Table(c, k).desired && n !in C.Table(c, k).existing
      ensures (k, C.Table(c, k).desired[n].id, n) in g + m {
      var id := C.Table(c, k).desired[n].id;
      var adds := if k == Group then groupAdds else meterAdds;
      assert (id, n) in adds;
      var i :| 0 <= i < |adds| && adds[i] == (id, n);
      assert TagAdds(k, adds)[i] == (k, id, n);
    }
  }

  /** Exactly the ids of the installed entries that are not wanted, once each. */
  ghost predicate AreDeletes(deletes: seq<nat>, x: Ext.Ext) {
    && (forall id :: id in deletes <==> id in Ext.IdsOf(x.existing, Ext.Unwanted(x)))
    && (forall i, j :: 0 <= i < j < |deletes| ==> deletes[i] != deletes[j])
  }

  lemma DeletesTagged(c: C.Ctl, groupDeletes: seq<nat>, meterDeletes: seq<nat>)
    requires AreDeletes(groupDeletes, c.groups) && AreDeletes(meterDeletes, c.meters)
    ensures C.IsDeletes(TagDeletes(Group, groupDeletes) + TagDeletes(Meter, meterDeletes), c)
  {
    var g, m := TagDeletes(Group, groupDeletes), TagDeletes(Meter, meterDeletes);
    forall d: (Kind, nat) | d in g + m
      ensures exists n :: n in C.Table(c, d.0).existing && n !in C.Table(c, d.0).desired
                && d.1 == C.Table(c, d.0).existing[n] {
      assert d.1 in if d.0 == Group then groupDeletes else meterDeletes;
      var n :| n in Ext.Unwanted(C.Table(c, d.0)) && C.Table(c, d.0).existing[n] == d.1;
    }
    forall k, n | n in C.Table(c, k).existing && n !in C.Table(c, k).desired
      ensures (k, C.Table(c, k).existing[n]) in g + m {
      var id := C.Table(c, k).existing[n];
      var deletes := if k == Group then groupDeletes else meterDeletes;
      assert n in Ext.Unwanted(C.Table(c, k));
      assert id in deletes;
      var i :| 0 <= i < |deletes| && deletes[i] == id;
      assert TagDeletes(k, deletes)[i] == (k, id);
    }
  }

  lemma WalkAt(cs: seq<FlowCommand>, was: FlowTable, wanted: FlowTable, done: set<FlowKey>,
               installed: FlowTable, left: FlowTable, k: FlowKey)
    requires Walking(cs, was, wanted, done, installed, left)
    ensures k in left ==> k !in done
    ensures k !in done ==> SameAt(installed, was, k) && SameAt(left, wanted, k)
  {
  }

  /** Part of the loop in ofctrl_run(): 'ms' sent and 'got' received so far. */
  ghost predicate Turning(all: (C.Ctl, seq<Msg>, nat), replies: seq<C.Reply>, n: nat, ms: seq<Msg>, got: nat,
                          c1: C.Ctl, progress: bool)
  {
    && got <= |replies|
    && all == if progress then C.After(ms, got, C.Turns(c1, replies[got..], n)) else (c1, ms, got)
  }

  lemma TurnStart(c: C.Ctl, replies: seq<C.Reply>, n: nat)
    ensures Turning(C.Turns(c, replies, n), replies, n, [], 0, c, true)
  {
    assert replies[0..] == replies;
    assert [] + C.Turns(c, replies, n).1 == C.Turns(c, replies, n).1;
  }

  lemma TurnEnd(all: (C.Ctl, seq<Msg>, nat), replies: seq<C.Reply>, n: nat, ms: seq<Msg>, got: nat, c1: C.Ctl,
                progress: bool)
    requires Turning(all, replies, n, ms, got, c1, progress) && (progress ==> n == 0)
    ensures all == (c1, ms, got)
  {
    assert ms + [] == ms;
  }

  lemma TurnStep(all: (C.Ctl, seq<Msg>, nat), replies: seq<C.Reply>, n: nat, ms: seq<Msg>, got: nat, c1: C.Ctl)
    requires Turning(all, replies, n, ms, got, c1, true) && n > 0
    ensures var m := if got < |replies| then Some(replies[got]) else None;
            var (c2, sent) := C.Turn(c1, m);
            Turning(all, replies, n - 1, ms + sent, if m.Some? then got + 1 else got, c2,
                    c2.state != c1.state || m.Some?)
  {
    var m := if got < |replies| then Some(replies[got]) else None;
    var (c2, sent) := C.Turn(c1, m);
    var rest := replies[got..];
    assert m == if rest != [] then Some(rest[0]) else None;
    if got < |replies| {
      assert rest[1..] == replies[got + 1..];
    } else {
      assert rest[0..] == rest;
    }
    var t := C.Turns(c2, rest[if m.Some? then 1 else 0..], n - 1);
    assert ms + (sent + t.1) == ms + sent + t.1;
  }
}
