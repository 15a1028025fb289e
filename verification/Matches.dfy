/** expr_to_matches(): a normalised expression as a set of flows that uses the
  * conjunctive match extension. */
module Matches {
  import opened Util
  import opened Bits
  import opened Expressions
  import opened Simplification
  import opened Crushing
  import opened Normalization

  // ----- flows and which packets they accept

  /** What a flow tests: masked field values, and possibly the conj_id field. */
  datatype Match = Match(fields: map<Symbol, Constant>, conjId: Option<nat>)

  /** conjunction(id, clause/n) */
  datatype Conj = Conj(id: nat, clause: nat, n: nat)

  /** Flows by match.  An ordinary flow has no conjunctions. */
  type Table = map<Match, seq<Conj>>

  const CATCHALL: Match := Match(map[], None)

  predicate Hits(fields: map<Symbol, Constant>, env: Env)
  {
    forall s :: s in fields ==> fields[s].Num? && Holds(s, fields[s], env)
  }

  /** A flow that the packet hits takes part in clause 'k' of conjunction 'id'. */
  predicate ClauseHit(t: Table, id: nat, k: nat, n: nat, env: Env)
  {
    exists m :: m in t && m.conjId.None? && Hits(m.fields, env) && Conj(id, k, n) in t[m]
  }

  /** Every clause of conjunction 'id' is hit, out of 'n'. */
  predicate AllClauses(t: Table, id: nat, n: nat, env: Env)
  {
    n > 0 && forall k :: 0 <= k < n ==> ClauseHit(t, id, k, n, env)
  }

  /** The packet, with conj_id set to 'id', hits an ordinary flow. */
  predicate FinalHit(t: Table, id: Option<nat>, env: Env)
  {
    exists m :: m in t && m.conjId == id && t[m] == [] && Hits(m.fields, env)
  }

  /** The flow table performs its actions on the packet: an ordinary flow hits,
    * or all the clauses of a conjunction do and then its conj_id flow. */
  ghost predicate Accepts(t: Table, env: Env)
  {
    || FinalHit(t, None, env)
    || exists id, n :: AllClauses(t, id, n, env) && FinalHit(t, Some(id), env)
  }

  // ----- adding flows to the table

  /** A flow to be added, with at most one conjunction. */
  datatype Emission = Emit(m: Match, conj: Option<Conj>)

  /** expr_match_add(): flows with equal matches are merged; next to an ordinary
    * flow, conjunctions are dropped. */
  function Add(t: Table, em: Emission): (r: Table)
  {
    var cs := if em.conj.None? then [] else [em.conj.value];
    if em.m !in t then t[em.m := cs]
    else if t[em.m] == [] || cs == [] then t[em.m := []]
    else t[em.m := t[em.m] + cs]
  }

  function Build(ems: seq<Emission>): (r: Table)
  {
    if ems == [] then map[] else Add(Build(ems[..|ems| - 1]), ems[|ems| - 1])
  }

  /** The table, described by the flows that were added to it. */
  predicate Describes(t: Table, ems: seq<Emission>)
  {
    && (forall m :: m in t ==> (t[m] == [] <==> Emit(m, None) in ems))
    && (forall m, c :: m in t && c in t[m] ==> Emit(m, Some(c)) in ems)
    && (forall em :: em in ems ==> em.m in t)
    && (forall em :: em in ems && em.conj.Some? ==> t[em.m] == [] || em.conj.value in t[em.m])
  }

  lemma AddDescribes(t: Table, ems: seq<Emission>, em: Emission)
    requires Describes(t, ems)
    ensures Describes(Add(t, em), ems + [em])
  {
    var r := Add(t, em);
    var all := ems + [em];
    forall x ensures x in all <==> x in ems || x == em { }
  }

  lemma {:induction false} BuildDescribes(ems: seq<Emission>)
    ensures Describes(Build(ems), ems)
  {
    if ems != [] {
      var init := ems[..|ems| - 1];
      BuildDescribes(init);
      AddDescribes(Build(init), init, ems[|ems| - 1]);
      assert ems == init + [ems[|ems| - 1]];
    }
  }

  // ----- acceptance, before any merging

  predicate EmClauseHit(ems: seq<Emission>, id: nat, k: nat, n: nat, env: Env)
  {
    exists em :: em in ems && em.m.conjId.None? && em.conj == Some(Conj(id, k, n)) && Hits(em.m.fields, env)
  }

  predicate EmAllClauses(ems: seq<Emission>, id: nat, n: nat, env: Env)
  {
    n > 0 && forall k :: 0 <= k < n ==> EmClauseHit(ems, id, k, n, env)
  }

  predicate EmFinalHit(ems: seq<Emission>, id: Option<nat>, env: Env)
  {
    exists em :: em in ems && em.conj.None? && em.m.conjId == id && Hits(em.m.fields, env)
  }

  ghost predicate EmAccepts(ems: seq<Emission>, env: Env)
  {
    || EmFinalHit(ems, None, env)
    || exists id, n :: EmAllClauses(ems, id, n, env) && EmFinalHit(ems, Some(id), env)
  }

  lemma FinalHitSame(t: Table, ems: seq<Emission>, id: Option<nat>, env: Env)
    requires Describes(t, ems)
    ensures FinalHit(t, id, env) == EmFinalHit(ems, id, env)
  {
    if FinalHit(t, id, env) {
      var m :| m in t && m.conjId == id && t[m] == [] && Hits(m.fields, env);
      assert Emit(m, None) in ems;
    }
    if EmFinalHit(ems, id, env) {
      var em :| em in ems && em.conj.None? && em.m.conjId == id && Hits(em.m.fields, env);
      assert em == Emit(em.m, None) && em.m in t && t[em.m] == [];
    }
  }

  lemma ClauseHitSame(t: Table, ems: seq<Emission>, id: nat, k: nat, n: nat, env: Env)
    requires Describes(t, ems) && !FinalHit(t, None, env)
    ensures ClauseHit(t, id, k, n, env) == EmClauseHit(ems, id, k, n, env)
  {
    if ClauseHit(t, id, k, n, env) {
      var m :| m in t && m.conjId.None? && Hits(m.fields, env) && Conj(id, k, n) in t[m];
      assert Emit(m, Some(Conj(id, k, n))) in ems;
    }
    if EmClauseHit(ems, id, k, n, env) {
      var em :| em in ems && em.m.conjId.None? && em.conj == Some(Conj(id, k, n)) && Hits(em.m.fields, env);
      assert em.m in t && t[em.m] != [];
    }
  }

  /** Merging equal matches loses conjunctions but not acceptance. */
  lemma MergeKeepsAcceptance(t: Table, ems: seq<Emission>, env: Env)
    requires Describes(t, ems)
    ensures Accepts(t, env) == EmAccepts(ems, env)
  {
    FinalHitSame(t, ems, None, env);
    if !FinalHit(t, None, env) {
      forall id: nat, n: nat ensures AllClauses(t, id, n, env) && FinalHit(t, Some(id), env)
                      <==> EmAllClauses(ems, id, n, env) && EmFinalHit(ems, Some(id), env)
      {
        FinalHitSame(t, ems, Some(id), env);
        forall k | 0 <= k < n ensures ClauseHit(t, id, k, n, env) == EmClauseHit(ems, id, k, n, env) {
          ClauseHitSame(t, ems, id, k, n, env);
        }
      }
    }
  }

  // ----- the flows for one expression

  /** constrain_match(): replaces what 'm' tests about the comparison's field;
    * None if its port is unknown. */
  function Constrain(m: Match, c: Expr, lookup: string -> Option<Bits>): (r: Option<Match>)
    requires c.Cmp?
  {
    match c.cst
    case Num(_, _) => Some(m.(fields := m.fields[c.sym := c.cst]))
    case Str(name) =>
      match lookup(name)
      case None => None
      case Some(port) => Some(m.(fields := m.fields[c.sym := Num(port, Range(0, PORT_BITS))]))
  }

  predicate AllCmps(cs: seq<Expr>) {
    forall c :: c in cs ==> c.Cmp?
  }

  function ConstrainAll(m: Match, cs: seq<Expr>, lookup: string -> Option<Bits>): (r: Option<Match>)
    requires AllCmps(cs)
    decreases cs
  {
    if cs == [] then Some(m)
    else
      assert cs[0] in cs;
      match Constrain(m, cs[0], lookup)
      case None => None
      case Some(m1) => ConstrainAll(m1, cs[1..], lookup)
  }

  /** add_disjunction() */
  function Disjunction(or: seq<Expr>, m: Match, conj: Option<Conj>, lookup: string -> Option<Bits>): (r: seq<Emission>)
    requires AllCmps(or)
  {
    if or == [] then []
    else
      assert or[0] in or;
      var rest := Disjunction(or[1..], m, conj, lookup);
      match Constrain(m, or[0], lookup)
      case None => rest
      case Some(m1) => [Emit(m1, conj)] + rest
  }

  predicate OrsOfCmps(ors: seq<Expr>) {
    forall o :: o in ors ==> o.AndOr? && AllCmps(o.subs)
  }

  /** The clauses from 'k' on, then the conj_id flow; stops at a clause that no
    * known port can satisfy. */
  function Conjunctive(ors: seq<Expr>, k: nat, n: nat, id: nat, m: Match,
                       lookup: string -> Option<Bits>): (r: seq<Emission>)
    requires OrsOfCmps(ors)
  {
    if ors == [] then [Emit(m.(conjId := Some(id)), None)]
    else
      assert ors[0] in ors;
      var clause := Disjunction(ors[0].subs, m, Some(Conj(id, k, n)), lookup);
      if clause == [] then [] else clause + Conjunctive(ors[1..], k + 1, n, id, m, lookup)
  }

  /** A conjunction of clauses, as expr_normalize() leaves it. */
  predicate Clauses(cs: seq<Expr>) {
    forall c :: c in cs ==> c.Cmp? || (c.AndOr? && c.op == Or && AllCmps(c.subs))
  }

  function CmpsOf(cs: seq<Expr>): (r: seq<Expr>)
    ensures forall c :: c in r <==> c in cs && c.Cmp?
  {
    if cs == [] then []
    else
      assert cs == [cs[0]] + cs[1..];
      (if cs[0].Cmp? then [cs[0]] else []) + CmpsOf(cs[1..])
  }

  function OrsOf(cs: seq<Expr>): (r: seq<Expr>)
    ensures forall c :: c in r <==> c in cs && !c.Cmp?
  {
    if cs == [] then []
    else
      assert cs == [cs[0]] + cs[1..];
      (if cs[0].Cmp? then [] else [cs[0]]) + OrsOf(cs[1..])
  }

  /** add_conjunction(): the flows for 'cs' and the last conjunction id used. */
  function Conjunction(cs: seq<Expr>, id: nat, lookup: string -> Option<Bits>): (r: (seq<Emission>, nat))
    requires Clauses(cs)
  {
    var ors := OrsOf(cs);
    match ConstrainAll(CATCHALL, CmpsOf(cs), lookup)
    case None => ([], id)
    case Some(m) =>
      if |ors| == 0 then ([Emit(m, None)], id)
      else if |ors| == 1 then
        assert ors[0] in ors;
        (Disjunction(ors[0].subs, m, None, lookup), id)
      else (Conjunctive(ors, 0, |ors|, id + 1, m, lookup), id + 1)
  }

  /** add_cmp_flow() */
  function CmpFlow(c: Expr, lookup: string -> Option<Bits>): (r: seq<Emission>)
    requires c.Cmp?
  {
    Disjunction([c], CATCHALL, None, lookup)
  }

  /** Each disjunct in turn, numbering the conjunctions on from 'id'. */
  function Disjuncts(es: seq<Expr>, id: nat, lookup: string -> Option<Bits>): (r: (seq<Emission>, nat))
    requires forall e :: e in es ==> e.Cmp? || (e.AndOr? && Clauses(e.subs))
  {
    if es == [] then ([], id)
    else
      assert es[0] in es;
      var (first, id1) := if es[0].Cmp? then (CmpFlow(es[0], lookup), id) else Conjunction(es[0].subs, id, lookup);
      var (rest, id2) := Disjuncts(es[1..], id1, lookup);
      (first + rest, id2)
  }

  /** A comparison flow for each disjunct. */
  function CmpFlows(es: seq<Expr>, lookup: string -> Option<Bits>): (r: seq<Emission>)
    requires AllCmps(es)
  {
    if es == [] then []
    else
      assert es[0] in es;
      CmpFlow(es[0], lookup) + CmpFlows(es[1..], lookup)
  }

  predicate Emittable(e: Expr)
  {
    match e
    case Cmp(_, _, _) => true
    case AndOr(And, subs) => Clauses(subs)
    case AndOr(Or, subs) =>
      if UniqueSym(e).Some? then AllCmps(subs)
      else forall x :: x in subs ==> x.Cmp? || (x.AndOr? && x.op == And && Clauses(x.subs))
    case Bool(_) => true
    case Cond(_, _) => false
  }

  function Flows(e: Expr, lookup: string -> Option<Bits>): (r: (seq<Emission>, nat))
    requires Emittable(e)
  {
    match e
    case Cmp(_, _, _) => (CmpFlow(e, lookup), 0)
    case AndOr(And, subs) => Conjunction(subs, 0, lookup)
    case AndOr(Or, subs) =>
      if UniqueSym(e).Some? then (CmpFlows(subs, lookup), 0) else Disjuncts(subs, 0, lookup)
    case Bool(b) => (if b then [Emit(CATCHALL, None)] else [], 0)
  }

  /** The table of flows, and how many conjunction ids it uses. */
  function ToMatches(e: Expr, lookup: string -> Option<Bits>): (r: (Table, nat))
    requires Emittable(e)
  {
    var (ems, n) := Flows(e, lookup);
    (Build(ems), n)
  }

  // ----- what a match means

  lemma HitsUpdate(fields: map<Symbol, Constant>, s: Symbol, c: Constant, env: Env)
    requires s !in fields && c.Num?
    ensures Hits(fields[s := c], env) <==> Hits(fields, env) && Holds(s, c, env)
  {
    var r := fields[s := c];
    if Hits(r, env) {
      assert r[s] == c;
      forall x | x in fields ensures fields[x].Num? && Holds(x, fields[x], env) {
        assert r[x] == fields[x];
      }
    }
  }

  /** Replacing is the same as intersecting when the match says nothing of the field yet. */
  lemma ConstrainMeaning(m: Match, c: Expr, env: Env, tab: SymTab)
    requires EqCmp(c, tab) && ValidEnv(env) && c.sym !in m.fields
    ensures var r := Constrain(m, c, env.lookup);
            && (r.None? ==> !Eval(c, env))
            && (r.Some? ==>
                  && r.value.conjId == m.conjId
                  && r.value.fields.Keys == m.fields.Keys + {c.sym}
                  && (Hits(r.value.fields, env) <==> Hits(m.fields, env) && Eval(c, env)))
  {
    match c.cst
    case Num(value, mask) =>
      EqMeaning(c.sym, value, mask, env);
      HitsUpdate(m.fields, c.sym, c.cst, env);
    case Str(name) =>
      match env.lookup(name)
      case None =>
      case Some(port) =>
        HitsUpdate(m.fields, c.sym, Num(port, Range(0, PORT_BITS)), env);
        PortMeaning(c.sym, port, env);
  }

  lemma PortMeaning(sym: Symbol, port: Bits, env: Env)
    requires port <= Range(0, PORT_BITS)
    ensures Compare(env.pkt(sym), port, PORT_BITS) == 0 <==> Holds(sym, Num(port, Range(0, PORT_BITS)), env)
  {
    CompareZero(env.pkt(sym), port, PORT_BITS);
    var r := Range(0, PORT_BITS);
    if env.pkt(sym) * r == port {
      forall i | 0 <= i < PORT_BITS ensures i in env.pkt(sym) <==> i in port {
        assert i in env.pkt(sym) * r <==> i in port;
      }
    }
    if forall i | 0 <= i < PORT_BITS :: i in env.pkt(sym) <==> i in port {
      assert env.pkt(sym) * r == port;
    }
  }

  /** The comparisons are on distinct symbols. */
  predicate DistinctSyms(cs: seq<Expr>) {
    forall i, j :: 0 <= i < j < |cs| && cs[i].Cmp? && cs[j].Cmp? ==> cs[i].sym != cs[j].sym
  }

  /** Comparisons on symbols that 'm' does not test. */
  predicate FreshCmps(cs: seq<Expr>, m: Match, tab: SymTab)
    ensures FreshCmps(cs, m, tab) ==> AllCmps(cs)
  {
    forall c :: c in cs ==> EqCmp(c, tab) && c.sym !in m.fields
  }

  lemma {:induction false} ConstrainAllMeaning(m: Match, cs: seq<Expr>, env: Env, tab: SymTab)
    requires ValidEnv(env) && DistinctSyms(cs)
    requires FreshCmps(cs, m, tab)
    ensures var r := ConstrainAll(m, cs, env.lookup);
            && (r.None? ==> !EvalSeq(And, cs, env))
            && (r.Some? ==>
                  && r.value.conjId == m.conjId
                  && (forall s :: s in r.value.fields ==> s in m.fields || exists c :: c in cs && c.sym == s)
                  && (Hits(r.value.fields, env) <==> Hits(m.fields, env) && EvalSeq(And, cs, env)))
    decreases cs
  {
    if cs != [] {
      assert cs[0] in cs && cs == [cs[0]] + cs[1..];
      ConstrainMeaning(m, cs[0], env, tab);
      EvalCons(And, cs[0], cs[1..], env);
      var m1 := Constrain(m, cs[0], env.lookup);
      if m1.Some? {
        forall c | c in cs[1..] ensures EqCmp(c, tab) && c.sym !in m1.value.fields {
          assert c in cs;
          var j :| 0 <= j < |cs[1..]| && cs[1..][j] == c;
          assert cs[0].sym != cs[j + 1].sym;
        }
        forall i, j | 0 <= i < j < |cs[1..]| && cs[1..][i].Cmp? && cs[1..][j].Cmp?
          ensures cs[1..][i].sym != cs[1..][j].sym {
          assert cs[1..][i] == cs[i + 1] && cs[1..][j] == cs[j + 1];
        }
        ConstrainAllMeaning(m1.value, cs[1..], env, tab);
      }
    }
  }

  /** Some flow of a clause is hit. */
  predicate AnyHit(ems: seq<Emission>, env: Env) {
    exists em :: em in ems && Hits(em.m.fields, env)
  }

  lemma {:induction false} DisjunctionMeaning(or: seq<Expr>, m: Match, conj: Option<Conj>, env: Env, tab: SymTab)
    requires ValidEnv(env) && FreshCmps(or, m, tab)
    ensures var r := Disjunction(or, m, conj, env.lookup);
            && (forall em :: em in r ==> em.conj == conj && em.m.conjId == m.conjId)
            && (AnyHit(r, env) <==> Hits(m.fields, env) && EvalSeq(Or, or, env))
            && (r == [] ==> !EvalSeq(Or, or, env))
  {
    if or != [] {
      assert or[0] in or && or == [or[0]] + or[1..];
      var rest := Disjunction(or[1..], m, conj, env.lookup);
      DisjunctionMeaning(or[1..], m, conj, env, tab);
      ConstrainMeaning(m, or[0], env, tab);
      EvalCons(Or, or[0], or[1..], env);
      var m1 := Constrain(m, or[0], env.lookup);
      if m1.Some? {
        var r := [Emit(m1.value, conj)] + rest;
        assert r[0] in r;
        forall em ensures em in r <==> em == r[0] || em in rest { }
      }
    }
  }

  // ----- conjunction ids

  /** Every conjunction id in 'ems' is in (lo, hi]. */
  predicate IdsWithin(ems: seq<Emission>, lo: nat, hi: nat) {
    forall em :: em in ems ==>
      && (em.conj.Some? ==> lo < em.conj.value.id <= hi)
      && (em.m.conjId.Some? ==> lo < em.m.conjId.value <= hi)
  }

  lemma EmFinalHitConcat(a: seq<Emission>, b: seq<Emission>, id: Option<nat>, env: Env)
    ensures EmFinalHit(a + b, id, env) <==> EmFinalHit(a, id, env) || EmFinalHit(b, id, env)
  {
    forall em ensures em in a + b <==> em in a || em in b { }
  }

  lemma EmAllClausesLocal(a: seq<Emission>, b: seq<Emission>, id: nat, n: nat, env: Env)
    requires forall em :: em in b && em.conj.Some? ==> em.conj.value.id != id
    ensures EmAllClauses(a + b, id, n, env) <==> EmAllClauses(a, id, n, env)
    ensures EmAllClauses(b + a, id, n, env) <==> EmAllClauses(a, id, n, env)
  {
    forall em ensures em in a + b <==> em in a || em in b { }
    forall em ensures em in b + a <==> em in a || em in b { }
    forall k: nat ensures EmClauseHit(a + b, id, k, n, env) <==> EmClauseHit(a, id, k, n, env)
                  ensures EmClauseHit(b + a, id, k, n, env) <==> EmClauseHit(a, id, k, n, env)
    {
      if EmClauseHit(a, id, k, n, env) {
        var em :| em in a && em.m.conjId.None? && em.conj == Some(Conj(id, k, n)) && Hits(em.m.fields, env);
        assert em in a + b && em in b + a;
      }
    }
  }

  /** Flow lists with different conjunction ids do not interfere. */
  lemma AcceptsConcat(a: seq<Emission>, b: seq<Emission>, lo: nat, mid: nat, hi: nat, env: Env)
    requires IdsWithin(a, lo, mid) && IdsWithin(b, mid, hi)
    ensures EmAccepts(a + b, env) <==> EmAccepts(a, env) || EmAccepts(b, env)
  {
    EmFinalHitConcat(a, b, None, env);
    forall id: nat, n: nat
      ensures EmAllClauses(a + b, id, n, env) && EmFinalHit(a + b, Some(id), env)
              <==> (EmAllClauses(a, id, n, env) && EmFinalHit(a, Some(id), env))
                   || (EmAllClauses(b, id, n, env) && EmFinalHit(b, Some(id), env))
    {
      EmFinalHitConcat(a, b, Some(id), env);
      if id <= mid {
        EmAllClausesLocal(a, b, id, n, env);
        assert !EmFinalHit(b, Some(id), env);
      } else {
        EmAllClausesLocal(b, a, id, n, env);
        assert !EmFinalHit(a, Some(id), env);
      }
    }
  }

  lemma IdsConcat(a: seq<Emission>, b: seq<Emission>, lo: nat, mid: nat, hi: nat)
    requires lo <= mid <= hi && IdsWithin(a, lo, mid) && IdsWithin(b, mid, hi)
    ensures IdsWithin(a + b, lo, hi)
  {
    forall em ensures em in a + b <==> em in a || em in b { }
  }

  // ----- one conjunction

  /** Disjunctions over symbols that 'm' does not test. */
  ghost predicate FreshOrs(ors: seq<Expr>, m: Match, tab: SymTab) {
    forall o :: o in ors ==> o.AndOr? && o.op == Or && FreshCmps(o.subs, m, tab)
  }

  /** A flow of clause 'k' or later, out of 'n', of conjunction 'id'. */
  predicate ClauseFlow(em: Emission, k: nat, n: nat, id: nat) {
    em.m.conjId.None? && em.conj.Some? && em.conj.value.id == id && em.conj.value.n == n
      && k <= em.conj.value.clause < n
  }

  function ConjIdFlow(m: Match, id: nat): (r: Emission) {
    Emit(m.(conjId := Some(id)), None)
  }

  lemma FreshOrsTail(ors: seq<Expr>, m: Match, tab: SymTab)
    requires FreshOrs(ors, m, tab)
    ensures OrsOfCmps(ors)
    ensures ors != [] ==>
              FreshOrs(ors[1..], m, tab) && ors[0].AndOr? && ors[0].op == Or && FreshCmps(ors[0].subs, m, tab)
  {
    assert ors != [] ==> ors[0] in ors;
  }

  lemma {:induction false} ConjunctiveForm(ors: seq<Expr>, k: nat, n: nat, id: nat, m: Match, env: Env, tab: SymTab)
    requires ValidEnv(env) && FreshOrs(ors, m, tab) && m.conjId.None? && n == k + |ors|
    ensures OrsOfCmps(ors)
    ensures forall em :: em in Conjunctive(ors, k, n, id, m, env.lookup) ==>
              em == ConjIdFlow(m, id) || ClauseFlow(em, k, n, id)
    decreases ors
  {
    FreshOrsTail(ors, m, tab);
    if ors != [] {
      ConjunctiveForm(ors[1..], k + 1, n, id, m, env, tab);
      DisjunctionMeaning(ors[0].subs, m, Some(Conj(id, k, n)), env, tab);
    }
  }

  /** The conj_id flow is left out only when some clause cannot hold. */
  lemma {:induction false} LeftOutIsFalse(ors: seq<Expr>, k: nat, n: nat, id: nat, m: Match, env: Env, tab: SymTab)
    requires ValidEnv(env) && FreshOrs(ors, m, tab)
    ensures OrsOfCmps(ors)
    ensures ConjIdFlow(m, id) !in Conjunctive(ors, k, n, id, m, env.lookup) ==> !EvalSeq(And, ors, env)
    decreases ors
  {
    FreshOrsTail(ors, m, tab);
    if ors != [] {
      assert ors == [ors[0]] + ors[1..];
      LeftOutIsFalse(ors[1..], k + 1, n, id, m, env, tab);
      DisjunctionMeaning(ors[0].subs, m, Some(Conj(id, k, n)), env, tab);
      EvalAndOr(Or, ors[0].subs, env);
      EvalCons(And, ors[0], ors[1..], env);
    }
  }

  /** Clauses 'k' and later are hit exactly when they hold together with 'm'. */
  ghost predicate HitsAgree(ems: seq<Emission>, ors: seq<Expr>, k: nat, n: nat, id: nat, m: Match, env: Env)
    requires n == k + |ors|
  {
    forall j: nat :: k <= j < n ==> (EmClauseHit(ems, id, j, n, env) <==> Hits(m.fields, env) && Eval(ors[j - k], env))
  }

  /** With the conj_id flow in place, each clause is hit exactly when it holds
    * together with the comparisons in 'm'. */
  lemma {:induction false} ConjunctiveHits(ors: seq<Expr>, k: nat, n: nat, id: nat, m: Match, env: Env, tab: SymTab)
    requires ValidEnv(env) && FreshOrs(ors, m, tab) && m.conjId.None? && n == k + |ors|
    ensures OrsOfCmps(ors)
    ensures var r := Conjunctive(ors, k, n, id, m, env.lookup);
            ConjIdFlow(m, id) in r ==> HitsAgree(r, ors, k, n, id, m, env)
    decreases ors
  {
    FreshOrsTail(ors, m, tab);
    if ors != [] {
      var clause := Disjunction(ors[0].subs, m, Some(Conj(id, k, n)), env.lookup);
      if clause != [] {
        var rest := Conjunctive(ors[1..], k + 1, n, id, m, env.lookup);
        assert Conjunctive(ors, k, n, id, m, env.lookup) == clause + rest;
        ConjunctiveHits(ors[1..], k + 1, n, id, m, env, tab);
        ConjunctiveForm(ors[1..], k + 1, n, id, m, env, tab);
        DisjunctionMeaning(ors[0].subs, m, Some(Conj(id, k, n)), env, tab);
        EvalAndOr(Or, ors[0].subs, env);
        ConjunctiveStep(clause, rest, ors, k, n, id, m, env);
      }
    }
  }

  lemma ConjunctiveStep(clause: seq<Emission>, rest: seq<Emission>, ors: seq<Expr>, k: nat, n: nat, id: nat, m: Match,
                        env: Env)
    requires ors != [] && n == k + |ors|
    requires forall em :: em in clause ==> em.conj == Some(Conj(id, k, n)) && em.m.conjId.None?
    requires AnyHit(clause, env) <==> Hits(m.fields, env) && Eval(ors[0], env)
    requires forall em :: em in rest ==> em == ConjIdFlow(m, id) || ClauseFlow(em, k + 1, n, id)
    requires ConjIdFlow(m, id) in rest ==> HitsAgree(rest, ors[1..], k + 1, n, id, m, env)
    ensures ConjIdFlow(m, id) in clause + rest ==> HitsAgree(clause + rest, ors, k, n, id, m, env)
  {
    var r := clause + rest;
    forall em ensures em in r <==> em in clause || em in rest { }
    if ConjIdFlow(m, id) in r {
      forall j: nat | k <= j < n
        ensures EmClauseHit(r, id, j, n, env) <==> Hits(m.fields, env) && Eval(ors[j - k], env) {
        if j == k {
          assert EmClauseHit(r, id, k, n, env) <==> AnyHit(clause, env);
        } else {
          assert EmClauseHit(r, id, j, n, env) <==> EmClauseHit(rest, id, j, n, env);
          assert ors[1..][j - (k + 1)] == ors[j - k];
        }
      }
    }
  }

  lemma ConjunctiveAccepts(ors: seq<Expr>, id: nat, m: Match, env: Env, tab: SymTab)
    requires ValidEnv(env) && FreshOrs(ors, m, tab) && m.conjId.None? && |ors| >= 1
    ensures OrsOfCmps(ors)
    ensures EmAccepts(Conjunctive(ors, 0, |ors|, id, m, env.lookup), env) <==>
              Hits(m.fields, env) && EvalSeq(And, ors, env)
  {
    var n := |ors|;
    FreshOrsTail(ors, m, tab);
    var r := Conjunctive(ors, 0, n, id, m, env.lookup);
    ConjunctiveForm(ors, 0, n, id, m, env, tab);
    LeftOutIsFalse(ors, 0, n, id, m, env, tab);
    ConjunctiveHits(ors, 0, n, id, m, env, tab);
    assert !EmFinalHit(r, None, env);
    if EmAccepts(r, env) {
      var i, c :| EmAllClauses(r, i, c, env) && EmFinalHit(r, Some(i), env);
      assert i == id && ConjIdFlow(m, id) in r;
      assert EmClauseHit(r, i, 0, c, env);
      assert c == n;
      forall o | o in ors ensures Eval(o, env) {
        var j :| 0 <= j < n && ors[j] == o;
        assert EmClauseHit(r, id, j, n, env);
      }
    }
    if Hits(m.fields, env) && EvalSeq(And, ors, env) {
      assert ConjIdFlow(m, id) in r;
      assert EmFinalHit(r, Some(id), env);
      assert EmAllClauses(r, id, n, env);
    }
  }

  /** Without the conj_id flow the conjunction is false, and the flows that were
    * emitted accept nothing: each is part of a clause of this conjunction, and no
    * flow is there that the clauses could lead to. */
  lemma ConjunctiveStops(ors: seq<Expr>, id: nat, m: Match, env: Env, tab: SymTab)
    requires ValidEnv(env) && FreshOrs(ors, m, tab) && m.conjId.None? && |ors| >= 1
    ensures OrsOfCmps(ors)
    ensures var r := Conjunctive(ors, 0, |ors|, id, m, env.lookup);
            ConjIdFlow(m, id) !in r ==>
              && !EvalSeq(And, ors, env) && !EmAccepts(r, env)
              && forall em :: em in r ==> em.m.conjId.None? && em.conj.Some? && em.conj.value.id == id
  {
    ConjunctiveForm(ors, 0, |ors|, id, m, env, tab);
    LeftOutIsFalse(ors, 0, |ors|, id, m, env, tab);
    ConjunctiveAccepts(ors, id, m, env, tab);
  }

  // ----- whole expressions

  lemma FinalOnly(ems: seq<Emission>, env: Env)
    requires forall em :: em in ems ==> em.conj.None? && em.m.conjId.None?
    ensures EmAccepts(ems, env) <==> AnyHit(ems, env)
  {
  }

  lemma {:induction false} SplitClauses(cs: seq<Expr>, env: Env)
    ensures EvalSeq(And, cs, env) <==> EvalSeq(And, CmpsOf(cs), env) && EvalSeq(And, OrsOf(cs), env)
  {
  }

  lemma {:induction false} CmpsDistinct(cs: seq<Expr>)
    requires OneEach(cs)
    ensures DistinctSyms(CmpsOf(cs))
  {
    if cs != [] {
      assert cs == [cs[0]] + cs[1..];
      forall i, j | 0 <= i < j < |cs[1..]| && UniqueSym(cs[1..][i]).Some?
        ensures UniqueSym(cs[1..][i]) != UniqueSym(cs[1..][j]) {
        assert cs[1..][i] == cs[i + 1] && cs[1..][j] == cs[j + 1];
      }
      CmpsDistinct(cs[1..]);
      if cs[0].Cmp? {
        var r := [cs[0]] + CmpsOf(cs[1..]);
        forall i, j | 0 <= i < j < |r| && r[i].Cmp? && r[j].Cmp? ensures r[i].sym != r[j].sym {
          if i == 0 {
            assert r[j] in CmpsOf(cs[1..]);
            var h :| 0 <= h < |cs[1..]| && cs[1..][h] == r[j];
            assert UniqueSym(cs[0]) != UniqueSym(cs[h + 1]);
          } else {
            assert CmpsOf(cs[1..])[i - 1].sym != CmpsOf(cs[1..])[j - 1].sym;
          }
        }
      }
    }
  }

  /** The disjunctions are over symbols that the comparisons do not test. */
  lemma OrsFresh(cs: seq<Expr>, m: Match, tab: SymTab)
    requires NormalAnd(cs, tab)
    requires forall s :: s in m.fields ==> exists c :: c in CmpsOf(cs) && c.sym == s
    ensures FreshOrs(OrsOf(cs), m, tab)
  {
    forall o | o in OrsOf(cs) ensures o.AndOr? && o.op == Or && FreshCmps(o.subs, m, tab) {
      assert NormalClause(o, tab);
      var sym := UniqueSym(o).value;
      var j :| 0 <= j < |cs| && cs[j] == o;
      forall c | c in CmpsOf(cs) ensures c.sym != sym {
        var i :| 0 <= i < |cs| && cs[i] == c;
        SymbolsApart(cs, i, j);
      }
      forall x | x in o.subs ensures EqCmp(x, tab) && x.sym !in m.fields {
        assert CmpOn(x, sym, tab);
      }
    }
  }

  lemma NormalAndClauses(cs: seq<Expr>, tab: SymTab)
    requires NormalAnd(cs, tab)
    ensures Clauses(cs)
  {
    forall c | c in cs ensures c.Cmp? || (c.AndOr? && c.op == Or && AllCmps(c.subs)) {
      assert NormalClause(c, tab);
      var sym := UniqueSym(c).value;
      if c.AndOr? {
        forall x | x in c.subs ensures x.Cmp? { assert CmpOn(x, sym, tab); }
      }
    }
  }

  lemma ConjunctionCorrect(cs: seq<Expr>, id: nat, env: Env, tab: SymTab)
    requires ValidEnv(env) && NormalAnd(cs, tab)
    ensures Clauses(cs)
    ensures var (ems, id1) := Conjunction(cs, id, env.lookup);
            && id <= id1 && IdsWithin(ems, id, id1)
            && (EmAccepts(ems, env) <==> EvalSeq(And, cs, env))
  {
    NormalAndClauses(cs, tab);
    var cmps, ors := CmpsOf(cs), OrsOf(cs);
    SplitClauses(cs, env);
    CmpsDistinct(cs);
    assert FreshCmps(cmps, CATCHALL, tab) by {
      forall c | c in cmps ensures EqCmp(c, tab) { assert NormalClause(c, tab); }
    }
    ConstrainAllMeaning(CATCHALL, cmps, env, tab);
    var r := ConstrainAll(CATCHALL, cmps, env.lookup);
    if r.None? {
      assert Conjunction(cs, id, env.lookup) == ([], id);
    } else {
      OrsFresh(cs, r.value, tab);
      ConjunctionFlows(cs, id, r.value, env, tab);
    }
  }

  lemma ConjunctionFlows(cs: seq<Expr>, id: nat, m: Match, env: Env, tab: SymTab)
    requires ValidEnv(env) && Clauses(cs) && ConstrainAll(CATCHALL, CmpsOf(cs), env.lookup) == Some(m)
    requires m.conjId.None? && FreshOrs(OrsOf(cs), m, tab)
    ensures var (ems, id1) := Conjunction(cs, id, env.lookup);
            && id <= id1 && IdsWithin(ems, id, id1)
            && (EmAccepts(ems, env) <==> Hits(m.fields, env) && EvalSeq(And, OrsOf(cs), env))
  {
    var ors := OrsOf(cs);
    FreshOrsTail(ors, m, tab);
    if |ors| == 0 {
      assert Conjunction(cs, id, env.lookup) == ([Emit(m, None)], id);
      NoOrFlows(m, env);
    } else if |ors| == 1 {
      assert Conjunction(cs, id, env.lookup) == (Disjunction(ors[0].subs, m, None, env.lookup), id);
      OneOrFlows(ors, m, env, tab);
    } else {
      assert Conjunction(cs, id, env.lookup) == (Conjunctive(ors, 0, |ors|, id + 1, m, env.lookup), id + 1);
      ConjunctiveForm(ors, 0, |ors|, id + 1, m, env, tab);
      ConjunctiveAccepts(ors, id + 1, m, env, tab);
    }
  }

  lemma NoOrFlows(m: Match, env: Env)
    requires m.conjId.None?
    ensures EmAccepts([Emit(m, None)], env) <==> Hits(m.fields, env)
  {
    assert [Emit(m, None)][0] in [Emit(m, None)];
    FinalOnly([Emit(m, None)], env);
  }

  lemma OneOrFlows(ors: seq<Expr>, m: Match, env: Env, tab: SymTab)
    requires ValidEnv(env) && |ors| == 1 && FreshOrs(ors, m, tab) && m.conjId.None?
    ensures OrsOfCmps(ors)
    ensures var ems := Disjunction(ors[0].subs, m, None, env.lookup);
            && (forall em :: em in ems ==> em.conj.None? && em.m.conjId.None?)
            && (EmAccepts(ems, env) <==> Hits(m.fields, env) && EvalSeq(And, ors, env))
  {
    FreshOrsTail(ors, m, tab);
    assert ors == [ors[0]];
    DisjunctionMeaning(ors[0].subs, m, None, env, tab);
    EvalAndOr(Or, ors[0].subs, env);
    EvalSingle(And, ors[0], env);
    FinalOnly(Disjunction(ors[0].subs, m, None, env.lookup), env);
  }

  lemma CmpFlowCorrect(c: Expr, env: Env, tab: SymTab)
    requires ValidEnv(env) && EqCmp(c, tab)
    ensures forall em :: em in CmpFlow(c, env.lookup) ==> em.conj.None? && em.m.conjId.None?
    ensures EmAccepts(CmpFlow(c, env.lookup), env) <==> Eval(c, env)
  {
    assert FreshCmps([c], CATCHALL, tab);
    DisjunctionMeaning([c], CATCHALL, None, env, tab);
    EvalSingle(Or, c, env);
    FinalOnly(CmpFlow(c, env.lookup), env);
  }

  predicate NormalOperands(es: seq<Expr>, tab: SymTab) {
    forall e :: e in es ==> NormalOperand(e, tab)
  }

  lemma NormalOperandsEmittable(es: seq<Expr>, tab: SymTab)
    requires NormalOperands(es, tab)
    ensures forall e :: e in es ==> e.Cmp? || (e.AndOr? && e.op == And && Clauses(e.subs))
  {
    forall e | e in es ensures e.Cmp? || (e.AndOr? && e.op == And && Clauses(e.subs)) {
      assert NormalOperand(e, tab);
      if e.AndOr? {
        NormalAndClauses(e.subs, tab);
      }
    }
  }

  lemma {:induction false} DisjunctsCorrect(es: seq<Expr>, id: nat, env: Env, tab: SymTab)
    requires ValidEnv(env) && NormalOperands(es, tab)
    ensures forall e :: e in es ==> e.Cmp? || (e.AndOr? && e.op == And && Clauses(e.subs))
    ensures var (ems, id1) := Disjuncts(es, id, env.lookup);
            && id <= id1 && IdsWithin(ems, id, id1)
            && (EmAccepts(ems, env) <==> EvalSeq(Or, es, env))
    decreases es
  {
    NormalOperandsEmittable(es, tab);
    if es != [] {
      assert es[0] in es && es == [es[0]] + es[1..];
      var (first, id1) :=
        if es[0].Cmp? then (CmpFlow(es[0], env.lookup), id) else Conjunction(es[0].subs, id, env.lookup);
      if es[0].Cmp? {
        CmpFlowCorrect(es[0], env, tab);
      } else {
        ConjunctionCorrect(es[0].subs, id, env, tab);
        EvalAndOr(And, es[0].subs, env);
      }
      var (rest, id2) := Disjuncts(es[1..], id1, env.lookup);
      DisjunctsCorrect(es[1..], id1, env, tab);
      AcceptsConcat(first, rest, id, id1, id2, env);
      IdsConcat(first, rest, id, id1, id2);
      EvalCons(Or, es[0], es[1..], env);
    }
  }

  lemma NormalizedEmittable(e: Expr, tab: SymTab)
    requires Normalized(e, tab)
    ensures Emittable(e)
  {
    if e.AndOr? && e.op == And {
      NormalAndClauses(e.subs, tab);
    } else if e.AndOr? {
      NormalOperandsEmittable(e.subs, tab);
      if UniqueSym(e).Some? {
        UniqueOrIsFlat(e, UniqueSym(e).value, tab);
      }
    }
  }

  lemma {:induction false} UniqueSeqMembers(es: seq<Expr>, sym: Symbol)
    requires UniqueSeq(es) == Some(sym)
    ensures forall e :: e in es ==> UniqueSym(e) == Some(sym)
  {
    assert es == [es[0]] + es[1..];
    if |es| > 1 {
      UniqueSeqMembers(es[1..], sym);
    }
  }

  lemma NormalAndNotUnique(cs: seq<Expr>, tab: SymTab)
    requires NormalAnd(cs, tab)
    ensures UniqueSeq(cs).None?
  {
    assert cs[0] in cs && cs[1] in cs && NormalClause(cs[0], tab);
    assert UniqueSym(cs[0]) != UniqueSym(cs[1]);
    if UniqueSeq(cs).Some? {
      UniqueSeqMembers(cs, UniqueSeq(cs).value);
    }
  }

  /** A normalised disjunction over one symbol has only comparisons in it. */
  lemma UniqueOrIsFlat(e: Expr, sym: Symbol, tab: SymTab)
    requires e.AndOr? && NormalOperands(e.subs, tab) && UniqueSym(e) == Some(sym)
    ensures AllCmps(e.subs)
  {
    UniqueSeqMembers(e.subs, sym);
    forall x | x in e.subs ensures x.Cmp? {
      assert NormalOperand(x, tab);
      if x.AndOr? {
        NormalAndNotUnique(x.subs, tab);
      }
    }
  }

  lemma {:induction false} CmpFlowsCorrect(es: seq<Expr>, env: Env, tab: SymTab)
    requires ValidEnv(env) && forall e :: e in es ==> EqCmp(e, tab)
    ensures AllCmps(es)
    ensures CmpFlows(es, env.lookup) == Disjuncts(es, 0, env.lookup).0 && Disjuncts(es, 0, env.lookup).1 == 0
    decreases es
  {
    forall e | e in es ensures e.Cmp? { assert EqCmp(e, tab); }
    if es != [] {
      CmpFlowsCorrect(es[1..], env, tab);
    }
  }

  lemma FlowsCorrect(e: Expr, env: Env, tab: SymTab)
    requires ValidEnv(env) && Normalized(e, tab)
    ensures Emittable(e)
    ensures var (ems, n) := Flows(e, env.lookup);
            && IdsWithin(ems, 0, n)
            && (EmAccepts(ems, env) <==> Eval(e, env))
  {
    NormalizedEmittable(e, tab);
    match e
    case Cmp(_, _, _) => CmpFlowCorrect(e, env, tab);
    case AndOr(And, subs) =>
      ConjunctionCorrect(subs, 0, env, tab);
      EvalAndOr(And, subs, env);
    case AndOr(Or, subs) =>
      DisjunctsCorrect(subs, 0, env, tab);
      EvalAndOr(Or, subs, env);
      if UniqueSym(e).Some? {
        forall x | x in subs ensures EqCmp(x, tab) { assert NormalOperand(x, tab); }
        CmpFlowsCorrect(subs, env, tab);
      }
    case Bool(b) =>
      var ems := Flows(e, env.lookup).0;
      assert b ==> ems[0] in ems;
      FinalOnly(ems, env);
  }

  /** expr_to_matches(): the flows accept exactly the packets that satisfy the
    * normalised expression. */
  lemma ToMatchesCorrect(e: Expr, env: Env, tab: SymTab)
    requires ValidEnv(env) && Normalized(e, tab)
    ensures Emittable(e)
    ensures Accepts(ToMatches(e, env.lookup).0, env) <==> Eval(e, env)
  {
    FlowsCorrect(e, env, tab);
    var ems := Flows(e, env.lookup).0;
    BuildDescribes(ems);
    MergeKeepsAcceptance(Build(ems), ems, env);
  }
}
