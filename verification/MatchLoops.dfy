/** expr_to_matches() in the form of lib/expr.c: a table of flows that each step adds
  * to in place, and a counter of conjunction ids. */
module MatchLoops {
  import opened Util
  import opened Bits
  import opened Expressions
  import opened Crushing
  import opened Matches

  type Lookup = string -> Option<Bits>

  lemma BuildMore(ems: seq<Emission>, em: Emission)
    ensures Build(ems + [em]) == Add(Build(ems), em)
  {
    assert (ems + [em])[..|ems|] == ems;
  }

  lemma DisjunctionNext(or: seq<Expr>, i: nat, m: Match, conj: Option<Conj>, lookup: Lookup, done: seq<Emission>,
                        all: seq<Emission>)
    requires AllCmps(or) && i < |or| && AllCmps(or[i..]) && AllCmps(or[i + 1..]) && or[i].Cmp?
    requires done + Disjunction(or[i..], m, conj, lookup) == all
    ensures var m1 := Constrain(m, or[i], lookup);
            (if m1.None? then done else done + [Emit(m1.value, conj)]) + Disjunction(or[i + 1..], m, conj, lookup) ==
              all
  {
    assert or[i..][1..] == or[i + 1..];
  }

  lemma CmpNext(es: seq<Expr>, i: nat, lookup: Lookup, done: seq<Emission>, all: seq<Emission>)
    requires i < |es| && AllCmps(es[i..]) && AllCmps(es[i + 1..]) && es[i].Cmp?
    requires done + CmpFlows(es[i..], lookup) == all
    ensures (done + CmpFlow(es[i], lookup)) + CmpFlows(es[i + 1..], lookup) == all
  {
    assert es[i..][1..] == es[i + 1..];
  }

  lemma CmpsTail(cs: seq<Expr>, i: nat)
    requires AllCmps(cs) && i <= |cs|
    ensures AllCmps(cs[i..])
  {
    forall c | c in cs[i..] ensures c.Cmp? { assert c in cs; }
  }

  class MatchTable {
    var table: Table
    var nConjs: nat
    ghost var added: seq<Emission>

    ghost predicate Ready()
      reads this`table, this`added
    {
      table == Build(added)
    }

    constructor ()
      ensures Ready() && added == [] && nConjs == 0
    {
      table := map[];
      nConjs := 0;
      added := [];
    }

    /** expr_match_add() */
    method MatchAdd(m: Match, conj: Option<Conj>)
      requires Ready()
      modifies this`table, this`added
      ensures Ready() && added == old(added) + [Emit(m, conj)]
    {
      BuildMore(added, Emit(m, conj));
      var cs := if conj.None? then [] else [conj.value];
      if m in table {
        if table[m] == [] || cs == [] {
          table := table[m := []];
        } else {
          table := table[m := table[m] + cs];
        }
      } else {
        table := table[m := cs];
      }
      added := added + [Emit(m, conj)];
    }

    /** add_disjunction(): tells whether any flow was added. */
    method AddDisjunction(or: seq<Expr>, m: Match, conj: Option<Conj>, lookup: Lookup) returns (some: bool)
      requires Ready() && AllCmps(or)
      modifies this`table, this`added
      ensures Ready() && added == old(added) + Disjunction(or, m, conj, lookup)
      ensures some <==> Disjunction(or, m, conj, lookup) != []
    {
      ghost var was := added;
      ghost var all := added + Disjunction(or, m, conj, lookup);
      var n := 0;
      assert or[0..] == or;
      for i := 0 to |or|
        invariant Ready() && |added| == |was| + n
        invariant AllCmps(or[i..]) && added + Disjunction(or[i..], m, conj, lookup) == all
      {
        assert or[i] in or;
        CmpsTail(or, i + 1);
        DisjunctionNext(or, i, m, conj, lookup, added, all);
        var m1 := Constrain(m, or[i], lookup);
        if m1.Some? {
          MatchAdd(m1.value, conj);
          n := n + 1;
        }
      }
      some := n > 0;
    }

    /** add_cmp_flow() */
    method AddCmpFlow(c: Expr, lookup: Lookup)
      requires Ready() && c.Cmp?
      modifies this`table, this`added
      ensures Ready() && added == old(added) + CmpFlow(c, lookup)
    {
      var m := Constrain(CATCHALL, c, lookup);
      if m.Some? {
        MatchAdd(m.value, None);
      }
      assert [c][1..] == [];
      assert Disjunction([], CATCHALL, None, lookup) == [];
    }

    /** The first walk of add_conjunction(): what the comparisons ask for, and how
      * many clauses are left. */
    method ConstrainCmps(cs: seq<Expr>, lookup: Lookup) returns (m: Option<Match>, n: nat)
      requires Clauses(cs)
      ensures m == ConstrainAll(CATCHALL, CmpsOf(cs), lookup)
      ensures m.Some? ==> n == |OrsOf(cs)|
    {
      var match_ := CATCHALL;
      n := 0;
      assert cs[0..] == cs;
      for i := 0 to |cs|
        invariant Constraining(cs, i, match_, n, lookup)
      {
        ConstrainNext(cs, i, match_, n, lookup);
        if cs[i].Cmp? {
          var m1 := Constrain(match_, cs[i], lookup);
          if m1.None? {
            return None, n;
          }
          match_ := m1.value;
        } else {
          n := n + 1;
        }
      }
      m := Some(match_);
    }

    /** Its second walk, with one clause. */
    method AddOnly(cs: seq<Expr>, m: Match, lookup: Lookup)
      requires Ready() && Clauses(cs) && |OrsOf(cs)| == 1
      modifies this`table, this`added
      ensures Ready() && OrsOf(cs)[0].AndOr? && AllCmps(OrsOf(cs)[0].subs)
      ensures added == old(added) + Disjunction(OrsOf(cs)[0].subs, m, None, lookup)
    {
      ghost var ors := OrsOf(cs);
      assert ors[0] in ors;
      ghost var was := added;
      ghost var all := added + Disjunction(ors[0].subs, m, None, lookup);
      ghost var found := false;
      assert cs[0..] == cs;
      for i := 0 to |cs|
        invariant Ready() && Seeking(cs, i, ors, found) && added == if found then all else was
      {
        SeekNext(cs, i, ors, found);
        if !cs[i].Cmp? {
          var _ := AddDisjunction(cs[i].subs, m, None, lookup);
          found := true;
        }
      }
    }

    /** Its second walk, with several: one clause after the other, and then the
      * flow that matches on conj_id. */
    method AddClauses(cs: seq<Expr>, n: nat, m: Match, lookup: Lookup)
      requires Ready() && Clauses(cs) && OrsOfCmps(OrsOf(cs))
      modifies this`table, this`added
      ensures Ready() && added == old(added) + Conjunctive(OrsOf(cs), 0, n, nConjs, m, lookup)
    {
      ghost var all := added + Conjunctive(OrsOf(cs), 0, n, nConjs, m, lookup);
      var clause := 0;
      assert cs[0..] == cs;
      for i := 0 to |cs|
        invariant Ready() && Numbering(cs, i, clause, n, nConjs, m, lookup, added, all)
      {
        NumberNext(cs, i, clause, n, nConjs, m, lookup, added, all);
        if !cs[i].Cmp? {
          var conj := Some(Conj(nConjs, clause, n));
          var some := AddDisjunction(cs[i].subs, m, conj, lookup);
          if !some {
            return;
          }
          clause := clause + 1;
        }
      }
      assert cs[|cs|..] == [];
      NumberEnd(n, nConjs, clause, m, lookup, added, all);
      MatchAdd(m.(conjId := Some(nConjs)), None);
    }

    /** add_conjunction() */
    method AddConjunction(cs: seq<Expr>, lookup: Lookup)
      requires Ready() && Clauses(cs)
      modifies this
      ensures Ready()
      ensures added == old(added) + Conjunction(cs, old(nConjs), lookup).0
      ensures nConjs == Conjunction(cs, old(nConjs), lookup).1
    {
      var m, n := ConstrainCmps(cs, lookup);
      if m.None? {
        return;
      }
      assert cs[0..] == cs;
      OrsTail(cs, 0);
      if n == 0 {
        MatchAdd(m.value, None);
      } else if n == 1 {
        AddOnly(cs, m.value, lookup);
      } else {
        nConjs := nConjs + 1;
        AddClauses(cs, n, m.value, lookup);
      }
    }

    /** expr_to_matches(), on an empty table. */
    method ConvertToMatches(e: Expr, lookup: Lookup)
      requires Ready() && added == [] && nConjs == 0 && Emittable(e)
      modifies this
      ensures Ready() && (table, nConjs) == ToMatches(e, lookup)
    {
      match e {
        case Cmp(_, _, _) => AddCmpFlow(e, lookup);
        case AndOr(And, subs) => AddConjunction(subs, lookup);
        case AndOr(Or, subs) =>
          if UniqueSym(e).Some? {
            AddCmps(subs, lookup);
          } else {
            AddDisjuncts(subs, lookup);
          }
        case Bool(b) =>
          if b {
            MatchAdd(CATCHALL, None);
          }
      }
      assert added == Flows(e, lookup).0;
    }

    method AddCmps(subs: seq<Expr>, lookup: Lookup)
      requires Ready() && AllCmps(subs)
      modifies this`table, this`added
      ensures Ready() && added == old(added) + CmpFlows(subs, lookup)
    {
      ghost var all := added + CmpFlows(subs, lookup);
      assert subs[0..] == subs;
      for i := 0 to |subs|
        invariant Ready() && AllCmps(subs[i..]) && added + CmpFlows(subs[i..], lookup) == all
      {
        assert subs[i] in subs;
        CmpsTail(subs, i + 1);
        CmpNext(subs, i, lookup, added, all);
        AddCmpFlow(subs[i], lookup);
      }
    }

    method AddDisjuncts(subs: seq<Expr>, lookup: Lookup)
      requires Ready() && DisjunctList(subs)
      modifies this
      ensures Ready()
      ensures added == old(added) + Disjuncts(subs, old(nConjs), lookup).0
      ensures nConjs == Disjuncts(subs, old(nConjs), lookup).1
    {
      ghost var all := (added + Disjuncts(subs, nConjs, lookup).0, Disjuncts(subs, nConjs, lookup).1);
      assert subs[0..] == subs;
      for i := 0 to |subs|
        invariant Ready() && Emitting(subs, i, nConjs, lookup, added, all)
      {
        var sub := subs[i];
        EmitNext(subs, i, nConjs, lookup, added, all);
        if sub.AndOr? {
          AddConjunction(sub.subs, lookup);
        } else {
          AddCmpFlow(sub, lookup);
        }
      }
    }
  }

  /** Part of the walk that emits the disjuncts. */
  ghost predicate Emitting(subs: seq<Expr>, i: nat, id: nat, lookup: Lookup, done: seq<Emission>,
                           all: (seq<Emission>, nat))
  {
    && i <= |subs| && DisjunctList(subs[i..])
    && all == (done + Disjuncts(subs[i..], id, lookup).0, Disjuncts(subs[i..], id, lookup).1)
  }

  lemma EmitNext(subs: seq<Expr>, i: nat, id: nat, lookup: Lookup, done: seq<Emission>, all: (seq<Emission>, nat))
    requires Emitting(subs, i, id, lookup, done, all) && i < |subs|
    ensures subs[i].Cmp? || (subs[i].AndOr? && Clauses(subs[i].subs))
    ensures if subs[i].AndOr? then
              var (first, id1) := Conjunction(subs[i].subs, id, lookup);
              Emitting(subs, i + 1, id1, lookup, done + first, all)
            else Emitting(subs, i + 1, id, lookup, done + CmpFlow(subs[i], lookup), all)
  {
    var rest := subs[i..];
    assert rest[0] == subs[i] && rest[0] in rest && rest[1..] == subs[i + 1..];
    DisjunctsTail(rest, 1);
    var (first, id1) := if rest[0].Cmp? then (CmpFlow(rest[0], lookup), id) else Conjunction(rest[0].subs, id, lookup);
    var (more, id2) := Disjuncts(rest[1..], id1, lookup);
    assert Disjuncts(rest, id, lookup) == (first + more, id2);
    assert done + (first + more) == done + first + more;
  }

  /** Part of the walk that applies the comparisons of a conjunction. */
  ghost predicate Constraining(cs: seq<Expr>, i: nat, m: Match, n: nat, lookup: Lookup) {
    && i <= |cs| && AllCmps(CmpsOf(cs[i..])) && AllCmps(CmpsOf(cs))
    && ConstrainAll(m, CmpsOf(cs[i..]), lookup) == ConstrainAll(CATCHALL, CmpsOf(cs), lookup)
    && n + |OrsOf(cs[i..])| == |OrsOf(cs)|
  }

  lemma ConstrainNext(cs: seq<Expr>, i: nat, m: Match, n: nat, lookup: Lookup)
    requires Constraining(cs, i, m, n, lookup) && i < |cs|
    ensures if cs[i].Cmp? then
              var m1 := Constrain(m, cs[i], lookup);
              if m1.None? then ConstrainAll(CATCHALL, CmpsOf(cs), lookup) == None
              else Constraining(cs, i + 1, m1.value, n, lookup)
            else Constraining(cs, i + 1, m, n + 1, lookup)
  {
    ClausesSplit(cs, i);
    if cs[i].Cmp? {
      ConstrainStep(m, cs[i], CmpsOf(cs[i + 1..]), lookup);
    }
  }

  /** Part of the walk that numbers the clauses. */
  ghost predicate Numbering(cs: seq<Expr>, i: nat, k: nat, n: nat, id: nat, m: Match, lookup: Lookup,
                            done: seq<Emission>, all: seq<Emission>)
  {
    && i <= |cs| && Clauses(cs) && OrsOfCmps(OrsOf(cs[i..]))
    && done + Conjunctive(OrsOf(cs[i..]), k, n, id, m, lookup) == all
  }

  lemma NumberEnd(n: nat, id: nat, k: nat, m: Match, lookup: Lookup, done: seq<Emission>, all: seq<Emission>)
    requires done + Conjunctive([], k, n, id, m, lookup) == all
    ensures all == done + [Emit(m.(conjId := Some(id)), None)]
  {
  }

  lemma NumberNext(cs: seq<Expr>, i: nat, k: nat, n: nat, id: nat, m: Match, lookup: Lookup,
                   done: seq<Emission>, all: seq<Emission>)
    requires Numbering(cs, i, k, n, id, m, lookup, done, all) && i < |cs|
    ensures if cs[i].Cmp? then Numbering(cs, i + 1, k, n, id, m, lookup, done, all)
            else
              && cs[i].AndOr? && AllCmps(cs[i].subs)
              && var clause := Disjunction(cs[i].subs, m, Some(Conj(id, k, n)), lookup);
              if clause == [] then all == done + clause
              else Numbering(cs, i + 1, k + 1, n, id, m, lookup, done + clause, all)
  {
    assert cs[i] in cs;
    ClausesSplit(cs, i);
    OrsTail(cs, i + 1);
    if !cs[i].Cmp? {
      ClauseNext(cs[i], OrsOf(cs[i + 1..]), k, n, id, m, lookup, done, all);
    }
  }

  /** A comparison or a conjunction of clauses. */
  predicate DisjunctList(es: seq<Expr>) {
    forall e :: e in es ==> e.Cmp? || (e.AndOr? && Clauses(e.subs))
  }

  lemma DisjunctsTail(es: seq<Expr>, i: nat)
    requires DisjunctList(es) && i <= |es|
    ensures DisjunctList(es[i..])
  {
    forall e | e in es[i..] ensures e.Cmp? || (e.AndOr? && Clauses(e.subs)) { assert e in es; }
  }

  lemma ClausesSplit(cs: seq<Expr>, i: nat)
    requires i < |cs|
    ensures if cs[i].Cmp? then
              CmpsOf(cs[i..]) == [cs[i]] + CmpsOf(cs[i + 1..]) && OrsOf(cs[i..]) == OrsOf(cs[i + 1..])
            else
              CmpsOf(cs[i..]) == CmpsOf(cs[i + 1..]) && OrsOf(cs[i..]) == [cs[i]] + OrsOf(cs[i + 1..])
  {
    assert cs[i..][0] == cs[i] && cs[i..][1..] == cs[i + 1..];
  }

  /** Part of the walk that looks for the only clause. */
  ghost predicate Seeking(cs: seq<Expr>, i: nat, ors: seq<Expr>, found: bool) {
    i <= |cs| && |ors| == 1 && OrsOf(cs[i..]) == if found then [] else ors
  }

  lemma SeekNext(cs: seq<Expr>, i: nat, ors: seq<Expr>, found: bool)
    requires Seeking(cs, i, ors, found) && i < |cs|
    ensures if cs[i].Cmp? then Seeking(cs, i + 1, ors, found)
            else !found && cs[i] == ors[0] && Seeking(cs, i + 1, ors, true)
  {
    ClausesSplit(cs, i);
    var rest := OrsOf(cs[i + 1..]);
    if !cs[i].Cmp? {
      assert ([cs[i]] + rest)[0] == cs[i] && |[cs[i]] + rest| == 1 + |rest|;
    }
  }

  lemma ConstrainStep(m: Match, c: Expr, cs: seq<Expr>, lookup: Lookup)
    requires c.Cmp? && AllCmps(cs) && AllCmps([c] + cs)
    ensures ConstrainAll(m, [c] + cs, lookup) ==
            var m1 := Constrain(m, c, lookup); if m1.None? then None else ConstrainAll(m1.value, cs, lookup)
  {
    assert ([c] + cs)[1..] == cs;
  }

  lemma OrsTail(cs: seq<Expr>, i: nat)
    requires Clauses(cs) && i <= |cs|
    ensures OrsOfCmps(OrsOf(cs[i..]))
  {
    forall o | o in OrsOf(cs[i..]) ensures o.AndOr? && AllCmps(o.subs) { assert o in cs; }
  }

  lemma ClauseNext(o: Expr, ors: seq<Expr>, k: nat, n: nat, id: nat, m: Match, lookup: Lookup, done: seq<Emission>,
                   all: seq<Emission>)
    requires o.AndOr? && AllCmps(o.subs) && OrsOfCmps(ors) && OrsOfCmps([o] + ors)
    requires done + Conjunctive([o] + ors, k, n, id, m, lookup) == all
    ensures var clause := Disjunction(o.subs, m, Some(Conj(id, k, n)), lookup);
            all == if clause == [] then done + clause else (done + clause) + Conjunctive(ors, k + 1, n, id, m, lookup)
  {
    assert ([o] + ors)[1..] == ors;
  }
}
