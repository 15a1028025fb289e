/** What the switch does with the messages it is sent, in the order it is sent
  * them (sections 6.2 and 6.4 of the OpenFlow Switch Specification 1.3). */
module OpenFlow {
  /** A flow's identity: table, priority and match. */
  datatype FlowKey = FlowKey(tableId: nat, priority: nat, match_: string)

  type Actions = string

  type FlowTable = map<FlowKey, Actions>

  datatype FlowCommand =
    | AddFlow(key: FlowKey, actions: Actions)
    | ModifyStrict(key: FlowKey, actions: Actions)
    | DeleteStrict(key: FlowKey)

  /** Groups and meters are handled alike. */
  datatype Kind = Group | Meter

  datatype Msg =
    | FlowMod(cmd: FlowCommand)
    | DeleteAllFlows
    | EntryAdd(kind: Kind, id: nat, name: string)
    | EntryDelete(kind: Kind, id: nat)
    | EntryDeleteAll(kind: Kind)
    | FlushZone(zone: nat)
    | Barrier(xid: nat)
    | TlvRequest(xid: nat)
    | TlvMod(xid: nat)
    | EchoReply

  function FlowStep(t: FlowTable, m: Msg): (r: FlowTable) {
    match m
    case FlowMod(AddFlow(k, a)) => t[k := a]
    case FlowMod(ModifyStrict(k, a)) => if k in t then t[k := a] else t
    case FlowMod(DeleteStrict(k)) => t - {k}
    case DeleteAllFlows => map[]
    case _ => t
  }

  /** The flow table after the switch has processed 'ms'. */
  function FlowsAfter(t: FlowTable, ms: seq<Msg>): (r: FlowTable) {
    if ms == [] then t else FlowStep(FlowsAfter(t, ms[..|ms| - 1]), ms[|ms| - 1])
  }

  function EntryStep(kind: Kind, g: map<nat, string>, m: Msg): (r: map<nat, string>) {
    match m
    case EntryAdd(k, id, name) => if k == kind then g[id := name] else g
    case EntryDelete(k, id) => if k == kind then g - {id} else g
    case EntryDeleteAll(k) => if k == kind then map[] else g
    case _ => g
  }

  /** The group or meter table after the switch has processed 'ms'. */
  function EntriesAfter(kind: Kind, g: map<nat, string>, ms: seq<Msg>): (r: map<nat, string>) {
    if ms == [] then g else EntryStep(kind, EntriesAfter(kind, g, ms[..|ms| - 1]), ms[|ms| - 1])
  }

  lemma {:induction false} FlowsConcat(t: FlowTable, a: seq<Msg>, b: seq<Msg>)
    ensures FlowsAfter(t, a + b) == FlowsAfter(FlowsAfter(t, a), b)
    decreases |b|
  {
    if b == [] {
      assert a + b == a;
    } else {
      assert (a + b)[..|a + b| - 1] == a + b[..|b| - 1];
      FlowsConcat(t, a, b[..|b| - 1]);
    }
  }

  lemma {:induction false} EntriesConcat(kind: Kind, g: map<nat, string>, a: seq<Msg>, b: seq<Msg>)
    ensures EntriesAfter(kind, g, a + b) == EntriesAfter(kind, EntriesAfter(kind, g, a), b)
    decreases |b|
  {
    if b == [] {
      assert a + b == a;
    } else {
      assert (a + b)[..|a + b| - 1] == a + b[..|b| - 1];
      EntriesConcat(kind, g, a, b[..|b| - 1]);
    }
  }

  /** 'm' does not touch the flow table. */
  predicate NotFlow(m: Msg) {
    !m.FlowMod? && !m.DeleteAllFlows?
  }

  predicate NotEntry(kind: Kind, m: Msg) {
    !(m.EntryAdd? && m.kind == kind) && !(m.EntryDelete? && m.kind == kind) && !(m.EntryDeleteAll? && m.kind == kind)
  }

  lemma {:induction false} FlowsUntouched(t: FlowTable, ms: seq<Msg>)
    requires forall m :: m in ms ==> NotFlow(m)
    ensures FlowsAfter(t, ms) == t
  {
    if ms != [] {
      assert ms[|ms| - 1] in ms;
      FlowsUntouched(t, ms[..|ms| - 1]);
    }
  }

  lemma {:induction false} EntriesUntouched(kind: Kind, g: map<nat, string>, ms: seq<Msg>)
    requires forall m :: m in ms ==> NotEntry(kind, m)
    ensures EntriesAfter(kind, g, ms) == g
  {
    if ms != [] {
      assert ms[|ms| - 1] in ms;
      EntriesUntouched(kind, g, ms[..|ms| - 1]);
    }
  }

  // ----- turning one flow table into another

  /** The command that the difference between the tables at 'k' calls for. */
  predicate Justified(c: FlowCommand, installed: FlowTable, desired: FlowTable) {
    match c
    case AddFlow(k, a) => k !in installed && k in desired && a == desired[k]
    case ModifyStrict(k, a) => k in installed && k in desired && installed[k] != desired[k] && a == desired[k]
    case DeleteStrict(k) => k in installed && k !in desired
  }

  predicate Differs(k: FlowKey, installed: FlowTable, desired: FlowTable) {
    if k in installed && k in desired then installed[k] != desired[k] else k in installed || k in desired
  }

  ghost predicate Mentions(cs: seq<FlowCommand>, k: FlowKey) {
    exists c :: c in cs && c.key == k
  }

  /** One justified command for each key where the tables differ, in any order. */
  ghost predicate IsDiff(cs: seq<FlowCommand>, installed: FlowTable, desired: FlowTable) {
    && (forall c :: c in cs ==> Justified(c, installed, desired))
    && (forall k :: Differs(k, installed, desired) ==> Mentions(cs, k))
    && (forall i, j :: 0 <= i < j < |cs| ==> cs[i].key != cs[j].key)
  }

  function FlowMods(cs: seq<FlowCommand>): (r: seq<Msg>)
    ensures |r| == |cs| && forall i :: 0 <= i < |cs| ==> r[i] == FlowMod(cs[i])
  {
    seq(|cs|, i requires 0 <= i < |cs| => FlowMod(cs[i]))
  }

  lemma MentionsLast(cs: seq<FlowCommand>, k: FlowKey)
    requires cs != [] && forall i, j :: 0 <= i < j < |cs| ==> cs[i].key != cs[j].key
    ensures var init, last := cs[..|cs| - 1], cs[|cs| - 1];
            && (Mentions(cs, k) <==> Mentions(init, k) || last.key == k)
            && !(Mentions(init, k) && last.key == k)
  {
    var init, last := cs[..|cs| - 1], cs[|cs| - 1];
    assert cs == init + [last] && last in cs;
  }

  /** The tables agree at 'k'. */
  predicate SameAt(t: FlowTable, u: FlowTable, k: FlowKey) {
    (k in t <==> k in u) && (k in t ==> t[k] == u[k])
  }

  lemma CommandAt(t: FlowTable, c: FlowCommand, installed: FlowTable, desired: FlowTable, k: FlowKey)
    requires Justified(c, installed, desired)
    ensures c.key != k ==> SameAt(FlowStep(t, FlowMod(c)), t, k)
    ensures c.key == k && SameAt(t, installed, k) ==> SameAt(FlowStep(t, FlowMod(c)), desired, k)
  {
  }

  /** Applying a prefix of justified commands with distinct keys: what has been
    * mentioned is as desired, the rest as installed. */
  lemma {:induction false} PartialDiff(cs: seq<FlowCommand>, installed: FlowTable, desired: FlowTable, k: FlowKey)
    requires forall c :: c in cs ==> Justified(c, installed, desired)
    requires forall i, j :: 0 <= i < j < |cs| ==> cs[i].key != cs[j].key
    ensures SameAt(FlowsAfter(installed, FlowMods(cs)), if Mentions(cs, k) then desired else installed, k)
    decreases |cs|
  {
    if cs != [] {
      var init, last := cs[..|cs| - 1], cs[|cs| - 1];
      assert FlowMods(cs)[..|cs| - 1] == FlowMods(init);
      assert FlowsAfter(installed, FlowMods(cs)) == FlowStep(FlowsAfter(installed, FlowMods(init)), FlowMod(last));
      PartialDiff(init, installed, desired, k);
      CommandAt(FlowsAfter(installed, FlowMods(init)), last, installed, desired, k);
      MentionsLast(cs, k);
    }
  }

  /** The commands turn the installed table into the desired one. */
  lemma DiffApplies(cs: seq<FlowCommand>, installed: FlowTable, desired: FlowTable)
    requires IsDiff(cs, installed, desired)
    ensures FlowsAfter(installed, FlowMods(cs)) == desired
  {
    var t := FlowsAfter(installed, FlowMods(cs));
    forall k ensures SameAt(t, desired, k) {
      PartialDiff(cs, installed, desired, k);
      if Mentions(cs, k) {
        var c :| c in cs && c.key == k;
      }
    }
    forall k ensures k in t <==> k in desired { assert SameAt(t, desired, k); }
    forall k | k in t ensures t[k] == desired[k] { assert SameAt(t, desired, k); }
  }

  /** No commands exactly when the tables agree. */
  lemma DiffEmpty(cs: seq<FlowCommand>, installed: FlowTable, desired: FlowTable)
    requires IsDiff(cs, installed, desired)
    ensures cs == [] <==> installed == desired
  {
    if cs == [] {
      DiffApplies(cs, installed, desired);
    } else {
      assert Justified(cs[0], installed, desired);
    }
  }
}
