/** crush_cmps(): an expression over one symbol becomes a single comparison or
  * a disjunction of comparisons. */
module Crushing {
  import opened Util
  import opened Bits
  import opened Expressions
  import opened Simplification
  import opened Sorting

  // ----- expressions over one symbol

  /** The only symbol that 'e' mentions, if there is exactly one and every
    * branch mentions it. */
  function UniqueSym(e: Expr): (r: Option<Symbol>)
    decreases e, 1
  {
    match e
    case Cmp(sym, _, _) => Some(sym)
    case AndOr(_, subs) => UniqueSeq(subs)
    case Bool(_) => None
    case Cond(_, _) => None
  }

  function UniqueSeq(subs: seq<Expr>): (r: Option<Symbol>)
    decreases subs, 0
  {
    if subs == [] then None
    else
      var first := UniqueSym(subs[0]);
      if |subs| == 1 || (first.Some? && UniqueSeq(subs[1..]) == first) then first else None
  }

  predicate CmpOn(e: Expr, sym: Symbol, tab: SymTab) {
    EqCmp(e, tab) && e.sym == sym
  }

  /** A simplified expression in which every comparison is on 'sym'. */
  predicate OnSym(e: Expr, sym: Symbol, tab: SymTab)
  {
    match e
    case Cmp(_, _, _) => CmpOn(e, sym, tab)
    case AndOr(op, subs) =>
      |subs| >= 2 && forall s :: s in subs ==> OnSym(s, sym, tab) && !(s.AndOr? && s.op == op)
    case Bool(_) => false
    case Cond(_, _) => false
  }

  lemma {:induction false} UniqueIsOn(e: Expr, sym: Symbol, tab: SymTab)
    requires Core(e, tab)
    ensures UniqueSym(e) == Some(sym) <==> OnSym(e, sym, tab)
    decreases e, 1
  {
    if e.AndOr? {
      UniqueSeqIsOn(e.subs, sym, tab);
    }
  }

  lemma {:induction false} UniqueSeqIsOn(subs: seq<Expr>, sym: Symbol, tab: SymTab)
    requires subs != [] && forall s :: s in subs ==> Core(s, tab)
    ensures UniqueSeq(subs) == Some(sym) <==> forall s :: s in subs ==> OnSym(s, sym, tab)
    decreases subs, 0
  {
    assert subs == [subs[0]] + subs[1..];
    UniqueIsOn(subs[0], sym, tab);
    if |subs| > 1 {
      UniqueSeqIsOn(subs[1..], sym, tab);
    }
  }

  lemma OnSymIsCore(e: Expr, sym: Symbol, tab: SymTab)
    requires OnSym(e, sym, tab)
    ensures Core(e, tab)
  {
  }

  /** One clause of a conjunction: a comparison or a disjunction of them. */
  predicate Clause(e: Expr, sym: Symbol, tab: SymTab)
  {
    || CmpOn(e, sym, tab)
    || (e.AndOr? && e.op == Or && |e.subs| >= 2 && forall s :: s in e.subs ==> CmpOn(s, sym, tab))
  }

  /** What crushing yields: never the constant true. */
  predicate Crushed(e: Expr, sym: Symbol, tab: SymTab) {
    e == Bool(false) || Clause(e, sym, tab)
  }

  lemma ClauseOnSym(e: Expr, sym: Symbol, tab: SymTab)
    requires Clause(e, sym, tab)
    ensures OnSym(e, sym, tab)
  {
  }

  // ----- intersecting constants

  /** mf_subvalue_intersect(): the tests agree where both look. */
  function Intersect(a: Constant, b: Constant): (r: Option<Constant>)
    requires a.Num? && b.Num?
    ensures r.Some? ==> r.value.Num? && r.value.mask == a.mask + b.mask
  {
    if ((a.value - b.value) + (b.value - a.value)) * (a.mask * b.mask) == {} then
      Some(Num(a.value + b.value, a.mask + b.mask))
    else None
  }

  /** The packet's field matches a masked constant. */
  predicate Holds(sym: Symbol, c: Constant, env: Env)
    requires c.Num?
  {
    env.pkt(sym) * c.mask == c.value
  }

  predicate WellMasked(c: Constant, sym: Symbol) {
    c.Num? && c.value <= c.mask <= Range(0, sym.width)
  }

  lemma IntersectAgree(a: Constant, b: Constant)
    requires a.Num? && b.Num?
    ensures Intersect(a, b).Some? <==> forall i | i in a.mask && i in b.mask :: i in a.value <==> i in b.value
  {
    var d := ((a.value - b.value) + (b.value - a.value)) * (a.mask * b.mask);
    if d != {} {
      var i :| i in d;
    } else {
      forall i | i in a.mask && i in b.mask ensures i in a.value <==> i in b.value {
        assert i !in d;
      }
    }
  }

  lemma IntersectMeaning(sym: Symbol, a: Constant, b: Constant, env: Env)
    requires WellMasked(a, sym) && WellMasked(b, sym)
    ensures var r := Intersect(a, b);
            && (r.Some? ==> WellMasked(r.value, sym))
            && (Holds(sym, a, env) && Holds(sym, b, env) <==> r.Some? && Holds(sym, r.value, env))
  {
    var p := env.pkt(sym);
    IntersectAgree(a, b);
    if Holds(sym, a, env) && Holds(sym, b, env) {
      forall i | i in a.mask && i in b.mask ensures i in a.value <==> i in b.value {
        assert i in p * a.mask <==> i in a.value;
        assert i in p * b.mask <==> i in b.value;
      }
      assert p * (a.mask + b.mask) == a.value + b.value;
    }
    if Intersect(a, b).Some? && p * (a.mask + b.mask) == a.value + b.value {
      forall i | i in a.mask + b.mask ensures i in p <==> i in a.value + b.value {
        assert i in p * (a.mask + b.mask) <==> i in a.value + b.value;
      }
      assert p * a.mask == a.value;
      assert p * b.mask == b.value;
    }
  }

  lemma CmpHolds(e: Expr, sym: Symbol, env: Env, tab: SymTab)
    requires CmpOn(e, sym, tab) && e.cst.Num?
    ensures WellMasked(e.cst, sym)
    ensures Eval(e, env) == Holds(sym, e.cst, env)
  {
    EqMeaning(sym, e.cst.value, e.cst.mask, env);
  }

  predicate NumCmps(cs: seq<Expr>) {
    forall c :: c in cs ==> c.Cmp? && c.cst.Num?
  }

  /** The comparisons of 'cs' that are compatible with 'a', intersected with it. */
  function IntersectEach(sym: Symbol, a: Constant, cs: seq<Expr>): (r: seq<Expr>)
    requires a.Num? && NumCmps(cs)
  {
    if cs == [] then []
    else
      var rest := IntersectEach(sym, a, cs[1..]);
      match Intersect(a, cs[0].cst)
      case None => rest
      case Some(c) => [Cmp(sym, EQ, c)] + rest
  }

  ghost predicate CmpsOn(cs: seq<Expr>, sym: Symbol, tab: SymTab) {
    forall c :: c in cs ==> CmpOn(c, sym, tab) && c.cst.Num?
  }

  lemma {:induction false} IntersectEachForm(sym: Symbol, a: Constant, cs: seq<Expr>, tab: SymTab)
    requires WellMasked(a, sym) && CmpsOn(cs, sym, tab)
    ensures CmpsOn(IntersectEach(sym, a, cs), sym, tab)
  {
    if cs != [] {
      assert cs[0] in cs;
      IntersectEachForm(sym, a, cs[1..], tab);
    }
  }

  lemma {:induction false} IntersectEachMeaning(sym: Symbol, a: Constant, cs: seq<Expr>, env: Env, tab: SymTab)
    requires WellMasked(a, sym) && CmpsOn(cs, sym, tab)
    ensures EvalSeq(Or, IntersectEach(sym, a, cs), env) <==> Holds(sym, a, env) && EvalSeq(Or, cs, env)
  {
    if cs != [] {
      assert cs[0] in cs && cs == [cs[0]] + cs[1..];
      assert CmpsOn(cs[1..], sym, tab) && NumCmps(cs[1..]);
      var rest := IntersectEach(sym, a, cs[1..]);
      IntersectEachMeaning(sym, a, cs[1..], env, tab);
      IntersectMeaning(sym, a, cs[0].cst, env);
      CmpHolds(cs[0], sym, env, tab);
      EvalCons(Or, cs[0], cs[1..], env);
      var i := Intersect(a, cs[0].cst);
      if i.Some? {
        EqMeaning(sym, i.value.value, i.value.mask, env);
        EvalCons(Or, Cmp(sym, EQ, i.value), rest, env);
      }
    }
  }

  /** All compatible combinations of 'a', one of 'xs' and one of 'ys'. */
  function CrossPairs(sym: Symbol, a: Constant, xs: seq<Expr>, ys: seq<Expr>): (r: seq<Expr>)
    requires a.Num? && NumCmps(xs) && NumCmps(ys)
  {
    if xs == [] then []
    else
      var rest := CrossPairs(sym, a, xs[1..], ys);
      match Intersect(a, xs[0].cst)
      case None => rest
      case Some(c) => IntersectEach(sym, c, ys) + rest
  }

  lemma {:induction false} CrossPairsForm(sym: Symbol, a: Constant, xs: seq<Expr>, ys: seq<Expr>, tab: SymTab)
    requires WellMasked(a, sym) && CmpsOn(xs, sym, tab) && CmpsOn(ys, sym, tab)
    ensures CmpsOn(CrossPairs(sym, a, xs, ys), sym, tab)
  {
    if xs != [] {
      assert xs[0] in xs;
      CrossPairsForm(sym, a, xs[1..], ys, tab);
      var i := Intersect(a, xs[0].cst);
      if i.Some? {
        IntersectEachForm(sym, i.value, ys, tab);
      }
    }
  }

  lemma {:induction false} CrossPairsMeaning(sym: Symbol, a: Constant, xs: seq<Expr>, ys: seq<Expr>, env: Env,
                                             tab: SymTab)
    requires WellMasked(a, sym) && CmpsOn(xs, sym, tab) && CmpsOn(ys, sym, tab)
    ensures EvalSeq(Or, CrossPairs(sym, a, xs, ys), env)
            <==> Holds(sym, a, env) && EvalSeq(Or, xs, env) && EvalSeq(Or, ys, env)
  {
    if xs != [] {
      assert xs[0] in xs && xs == [xs[0]] + xs[1..];
      assert CmpsOn(xs[1..], sym, tab) && NumCmps(xs[1..]);
      var rest := CrossPairs(sym, a, xs[1..], ys);
      CrossPairsMeaning(sym, a, xs[1..], ys, env, tab);
      IntersectMeaning(sym, a, xs[0].cst, env);
      CmpHolds(xs[0], sym, env, tab);
      EvalCons(Or, xs[0], xs[1..], env);
      var i := Intersect(a, xs[0].cst);
      if i.Some? {
        IntersectEachMeaning(sym, i.value, ys, env, tab);
        EvalConcat(Or, IntersectEach(sym, i.value, ys), rest, env);
      }
    }
  }

  // ----- gathering the operands of an AND

  /** The crushed operands of an AND. */
  ghost predicate Items(items: seq<Expr>, sym: Symbol, tab: SymTab) {
    forall x :: x in items ==> Crushed(x, sym, tab)
  }

  /** Folds the single comparisons into 'acc' and keeps the disjunctions; None
    * if some operand is false or contradicts the others. */
  function Gather(items: seq<Expr>, acc: Constant): (r: Option<(Constant, seq<Expr>)>)
    requires acc.Num? && forall x :: x in items && x.Cmp? ==> x.cst.Num?
    ensures r.Some? ==> r.value.0.Num?
    ensures r.Some? ==> forall x :: x in r.value.1 ==> x in items && x.AndOr?
  {
    if items == [] then Some((acc, []))
    else
      assert items[0] in items;
      match items[0]
      case Cmp(_, _, cst) =>
        (match Intersect(acc, cst)
         case None => None
         case Some(c) => Gather(items[1..], c))
      case AndOr(_, _) =>
        (match Gather(items[1..], acc)
         case None => None
         case Some((c, ors)) => Some((c, [items[0]] + ors)))
      case Bool(b) => if b then Gather(items[1..], acc) else None
      case Cond(_, _) => Gather(items[1..], acc)
  }

  function CountOrs(es: seq<Expr>): (r: nat)
    ensures r <= |es|
  {
    if es == [] then 0 else (if es[0].AndOr? && es[0].op == Or then 1 else 0) + CountOrs(es[1..])
  }

  lemma {:induction false} GatherForm(items: seq<Expr>, acc: Constant, sym: Symbol, tab: SymTab)
    requires sym.width > 0 && Items(items, sym, tab) && WellMasked(acc, sym)
    ensures var g := Gather(items, acc);
            g.Some? ==>
              && WellMasked(g.value.0, sym)
              && |g.value.1| == CountOrs(items)
              && acc.mask <= g.value.0.mask
              && (CountOrs(items) < |items| ==> g.value.0.mask != {})
  {
    if items != [] {
      assert items[0] in items;
      match items[0]
      case Cmp(_, _, cst) =>
        var i := Intersect(acc, cst);
        if i.Some? { GatherForm(items[1..], i.value, sym, tab); }
      case AndOr(_, _) => GatherForm(items[1..], acc, sym, tab);
      case Bool(b) =>
    }
  }

  lemma {:induction false} GatherMeaning(items: seq<Expr>, acc: Constant, sym: Symbol, env: Env, tab: SymTab)
    requires sym.width > 0 && Items(items, sym, tab) && WellMasked(acc, sym)
    ensures var g := Gather(items, acc);
            Holds(sym, acc, env) && EvalSeq(And, items, env)
            <==> g.Some? && Holds(sym, g.value.0, env) && EvalSeq(And, g.value.1, env)
  {
    if items != [] {
      assert items[0] in items && items == [items[0]] + items[1..];
      EvalCons(And, items[0], items[1..], env);
      match items[0]
      case Cmp(_, _, cst) =>
        var i := Intersect(acc, cst);
        IntersectMeaning(sym, acc, cst, env);
        CmpHolds(items[0], sym, env, tab);
        if i.Some? { GatherMeaning(items[1..], i.value, sym, env, tab); }
      case AndOr(_, _) =>
        GatherMeaning(items[1..], acc, sym, env, tab);
        var g := Gather(items[1..], acc);
        if g.Some? { EvalCons(And, items[0], g.value.1, env); }
      case Bool(b) =>
    }
  }

  // ----- AND over a numeric symbol

  /** With at most one disjunction left, the result is immediate. */
  function AndShort(sym: Symbol, acc: Constant, ors: seq<Expr>): (r: Expr)
    requires acc.Num? && |ors| < 2 && forall o :: o in ors ==> o.AndOr? && NumCmps(o.subs)
  {
    if |ors| == 0 then (if acc.mask == {} then Bool(true) else Cmp(sym, EQ, acc))
    else Junction(Or, IntersectEach(sym, acc, ors[0].subs))
  }

  /** With two or more, the first two are multiplied out and the result has to
    * be crushed again; the constant false if nothing is compatible. */
  function PairUp(sym: Symbol, acc: Constant, ors: seq<Expr>): (r: Expr)
    requires acc.Num? && |ors| >= 2 && forall o :: o in ors ==> o.AndOr? && NumCmps(o.subs)
  {
    var pairs := CrossPairs(sym, acc, ors[0].subs, ors[1].subs);
    if pairs == [] then Bool(false)
    else if |ors| == 2 then Junction(Or, pairs)
    else AndOr(And, [Junction(Or, pairs)] + ors[2..])
  }

  /** Disjunctions of comparisons on 'sym'. */
  ghost predicate OrClauses(ors: seq<Expr>, sym: Symbol, tab: SymTab) {
    forall o :: o in ors ==> o.AndOr? && Clause(o, sym, tab) && CmpsOn(o.subs, sym, tab)
  }

  lemma JunctionClause(es: seq<Expr>, sym: Symbol, tab: SymTab)
    requires es != [] && CmpsOn(es, sym, tab)
    ensures Clause(Junction(Or, es), sym, tab)
  {
    assert es[0] in es;
  }

  lemma AndShortCorrect(sym: Symbol, acc: Constant, ors: seq<Expr>, env: Env, tab: SymTab)
    requires sym.width > 0 && sym.name in tab && tab[sym.name] == sym
    requires WellMasked(acc, sym) && |ors| < 2 && OrClauses(ors, sym, tab) && (ors == [] ==> acc.mask != {})
    ensures Crushed(AndShort(sym, acc, ors), sym, tab)
    ensures Eval(AndShort(sym, acc, ors), env) == (Holds(sym, acc, env) && EvalSeq(And, ors, env))
  {
    if |ors| == 0 {
      EqMeaning(sym, acc.value, acc.mask, env);
    } else {
      var o := ors[0];
      assert o in ors && ors == [o];
      var es := IntersectEach(sym, acc, o.subs);
      IntersectEachForm(sym, acc, o.subs, tab);
      if es != [] { JunctionClause(es, sym, tab); }
      IntersectEachMeaning(sym, acc, o.subs, env, tab);
      EvalJunction(Or, es, env);
      EvalSingle(And, o, env);
      EvalAndOr(Or, o.subs, env);
    }
  }

  lemma PairUpForm(sym: Symbol, acc: Constant, ors: seq<Expr>, tab: SymTab)
    requires WellMasked(acc, sym) && |ors| >= 2 && OrClauses(ors, sym, tab)
    ensures var next := PairUp(sym, acc, ors);
            next == Bool(false) ||
            (OnSym(next, sym, tab) && Height(next) <= 2
             && (next.AndOr? && next.op == And ==> CountOrs(next.subs) < |ors|)
             && (!(next.AndOr? && next.op == And) ==> Height(next) <= 1))
  {
    assert ors[0] in ors && ors[1] in ors;
    var pairs := CrossPairs(sym, acc, ors[0].subs, ors[1].subs);
    CrossPairsForm(sym, acc, ors[0].subs, ors[1].subs, tab);
    if pairs != [] {
      var first := Junction(Or, pairs);
      JunctionClause(pairs, sym, tab);
      ClauseOnSym(first, sym, tab);
      ClauseHeight(first, sym, tab);
      if |ors| > 2 {
        var es := [first] + ors[2..];
        forall x | x in es ensures OnSym(x, sym, tab) && !(x.AndOr? && x.op == And) && Height(x) <= 1 {
          if x != first {
            assert x in ors;
            ClauseOnSym(x, sym, tab);
            ClauseHeight(x, sym, tab);
          }
        }
        MaxHeightBound(es, 1);
        assert es[1..] == ors[2..];
      }
    }
  }

  lemma PairUpMeaning(sym: Symbol, acc: Constant, ors: seq<Expr>, env: Env, tab: SymTab)
    requires WellMasked(acc, sym) && |ors| >= 2 && OrClauses(ors, sym, tab)
    ensures Eval(PairUp(sym, acc, ors), env) == (Holds(sym, acc, env) && EvalSeq(And, ors, env))
  {
    var x, y, rest := ors[0], ors[1], ors[2..];
    assert x in ors && y in ors && ors == [x] + ([y] + rest);
    var pairs := CrossPairs(sym, acc, x.subs, y.subs);
    CrossPairsMeaning(sym, acc, x.subs, y.subs, env, tab);
    EvalJunction(Or, pairs, env);
    EvalCons(And, x, [y] + rest, env);
    EvalCons(And, y, rest, env);
    EvalAndOr(Or, x.subs, env);
    EvalAndOr(Or, y.subs, env);
    if pairs != [] && |ors| > 2 {
      EvalCons(And, Junction(Or, pairs), rest, env);
      EvalAndOr(And, [Junction(Or, pairs)] + rest, env);
    }
  }

  // ----- AND over a string symbol

  predicate HasName(or: Expr, name: string) {
    or.AndOr? && exists c :: c in or.subs && c.Cmp? && c.cst == Str(name)
  }

  /** The comparisons of 'cs' whose name occurs in every one of 'ors'. */
  function CommonTo(cs: seq<Expr>, ors: seq<Expr>): (r: seq<Expr>)
    ensures forall c :: c in r <==> c in cs && c.Cmp? && c.cst.Str? && forall o :: o in ors ==> HasName(o, c.cst.name)
  {
    if cs == [] then []
    else
      assert cs == [cs[0]] + cs[1..];
      (if cs[0].Cmp? && cs[0].cst.Str? && (forall o :: o in ors ==> HasName(o, cs[0].cst.name)) then [cs[0]] else [])
      + CommonTo(cs[1..], ors)
  }

  function Keep(items: seq<Expr>, cmps: bool): (r: seq<Expr>)
    ensures forall x :: x in r <==> x in items && !x.Bool? && x.Cmp? == cmps
  {
    if items == [] then []
    else
      assert items == [items[0]] + items[1..];
      (if !items[0].Bool? && items[0].Cmp? == cmps then [items[0]] else []) + Keep(items[1..], cmps)
  }

  function AndString(items: seq<Expr>): (r: Expr)
    requires forall x :: x in items && x.Cmp? ==> x.cst.Str?
  {
    var singles, ors := Keep(items, true), Keep(items, false);
    if Bool(false) in items then Bool(false)
    else if singles != [] then
      assert singles[0] in singles;
      var name := singles[0].cst.name;
      if (forall c :: c in singles ==> c.cst.name == name) && (forall o :: o in ors ==> HasName(o, name))
      then singles[0]
      else Bool(false)
    else if ors == [] || !ors[0].AndOr? then Bool(false)
    else Junction(Or, CommonTo(ors[0].subs, ors[1..]))
  }

  /** A port field never equals two names at once. */
  lemma StringsExclusive(a: Expr, b: Expr, sym: Symbol, env: Env, tab: SymTab)
    requires ValidEnv(env) && sym.width == 0 && CmpOn(a, sym, tab) && CmpOn(b, sym, tab)
    requires Eval(a, env) && Eval(b, env)
    ensures a == b
  {
    var p, q := env.lookup(a.cst.name).value, env.lookup(b.cst.name).value;
    CompareZero(env.pkt(sym), p, PORT_BITS);
    CompareZero(env.pkt(sym), q, PORT_BITS);
    forall i ensures i in p <==> i in q {
      assert i in p ==> i in Range(0, PORT_BITS);
      assert i in q ==> i in Range(0, PORT_BITS);
    }
    assert p == q;
    assert env.lookup(a.cst.name) == env.lookup(b.cst.name);
  }

  lemma HasNameMeaning(o: Expr, c: Expr, sym: Symbol, env: Env, tab: SymTab)
    requires ValidEnv(env) && sym.width == 0 && CmpOn(c, sym, tab) && Clause(o, sym, tab) && o.AndOr?
    requires Eval(c, env)
    ensures Eval(o, env) <==> HasName(o, c.cst.name)
  {
    if Eval(o, env) {
      var x :| x in o.subs && Eval(x, env);
      StringsExclusive(x, c, sym, env, tab);
    }
    if HasName(o, c.cst.name) {
      var x :| x in o.subs && x.Cmp? && x.cst == Str(c.cst.name);
      assert x == c;
    }
  }

  lemma AndStringForm(items: seq<Expr>, sym: Symbol, tab: SymTab)
    requires sym.width == 0 && Items(items, sym, tab)
    ensures Crushed(AndString(items), sym, tab)
  {
    var singles, ors := Keep(items, true), Keep(items, false);
    if Bool(false) !in items {
      if singles != [] {
        assert singles[0] in singles;
      } else if ors != [] && ors[0].AndOr? {
        assert ors[0] in ors;
        var es := CommonTo(ors[0].subs, ors[1..]);
        assert forall c :: c in es ==> CmpOn(c, sym, tab);
        assert es != [] ==> es[0] in es;
      }
    }
  }

  lemma AndSinglesMeaning(items: seq<Expr>, sym: Symbol, env: Env, tab: SymTab)
    requires ValidEnv(env) && sym.width == 0 && Items(items, sym, tab)
    requires Bool(false) !in items && Keep(items, true) != []
    ensures Eval(AndString(items), env) == EvalSeq(And, items, env)
  {
    var singles, ors := Keep(items, true), Keep(items, false);
    var c := singles[0];
    assert c in singles;
    if Eval(c, env) {
      forall x | x in items
        ensures Eval(x, env) <==> if x.Cmp? then x.cst.name == c.cst.name else HasName(x, c.cst.name) {
        if x.Cmp? {
          if Eval(x, env) { StringsExclusive(x, c, sym, env, tab); }
          if x.cst.name == c.cst.name { assert x == c; }
        } else {
          HasNameMeaning(x, c, sym, env, tab);
        }
      }
      forall x | x in items ensures x in singles || x in ors { }
    } else {
      assert c in items;
    }
  }

  lemma AndOrsMeaning(items: seq<Expr>, sym: Symbol, env: Env, tab: SymTab)
    requires ValidEnv(env) && sym.width == 0 && Items(items, sym, tab) && items != []
    requires Bool(false) !in items && Keep(items, true) == []
    ensures Eval(AndString(items), env) == EvalSeq(And, items, env)
  {
    var ors := Keep(items, false);
    forall x | x in items ensures x in ors && x.AndOr? { assert x !in Keep(items, true); }
    assert items[0] in items;
    var o, rest := ors[0], ors[1..];
    assert ors == [o] + rest && o in ors;
    var es := CommonTo(o.subs, rest);
    EvalJunction(Or, es, env);
    EvalSameMembers(And, items, ors, env);
    if EvalSeq(And, ors, env) {
      assert Eval(o, env);
      var c :| c in o.subs && Eval(c, env);
      forall x | x in rest ensures HasName(x, c.cst.name) {
        assert x in ors;
        HasNameMeaning(x, c, sym, env, tab);
      }
      assert c in es;
    }
    if EvalSeq(Or, es, env) {
      var c :| c in es && Eval(c, env);
      forall x | x in ors ensures Eval(x, env) {
        if x in rest {
          HasNameMeaning(x, c, sym, env, tab);
        }
      }
    }
  }

  lemma AndStringCorrect(items: seq<Expr>, sym: Symbol, env: Env, tab: SymTab)
    requires ValidEnv(env) && sym.width == 0 && Items(items, sym, tab) && items != []
    ensures Eval(AndString(items), env) == EvalSeq(And, items, env) && Crushed(AndString(items), sym, tab)
  {
    AndStringForm(items, sym, tab);
    if Bool(false) in items {
    } else if Keep(items, true) != [] {
      AndSinglesMeaning(items, sym, env, tab);
    } else {
      AndOrsMeaning(items, sym, env, tab);
    }
  }

  // ----- nesting depth, for termination

  function Height(e: Expr): (r: nat)
    decreases e, 1
  {
    if e.AndOr? then 1 + MaxHeight(e.subs) else 0
  }

  function MaxHeight(es: seq<Expr>): (r: nat)
    decreases es, 0
  {
    if es == [] then 0 else Max(Height(es[0]), MaxHeight(es[1..]))
  }

  lemma {:induction false} MaxHeightBound(es: seq<Expr>, h: nat)
    requires forall x :: x in es ==> Height(x) <= h
    ensures MaxHeight(es) <= h
  {
    if es != [] {
      assert es[0] in es;
      MaxHeightBound(es[1..], h);
    }
  }

  lemma ClauseHeight(e: Expr, sym: Symbol, tab: SymTab)
    requires Clause(e, sym, tab)
    ensures Height(e) <= 1
  {
    if e.AndOr? {
      MaxHeightBound(e.subs, 0);
    }
  }

  lemma {:induction false} CountOrsHeight(es: seq<Expr>)
    requires CountOrs(es) > 0
    ensures MaxHeight(es) >= 1
  {
    if !(es[0].AndOr? && es[0].op == Or) {
      CountOrsHeight(es[1..]);
    }
  }

  // ----- OR

  /** compare_cmps_3way(): by value and then mask, or by name. */
  function CmpOrder(a: Expr, b: Expr): (r: int)
  {
    if !a.Cmp? || !b.Cmp? then 0
    else if a.cst.Num? && b.cst.Num? then
      var d := Compare(a.cst.value, b.cst.value, a.sym.width);
      if d != 0 then d else Compare(a.cst.mask, b.cst.mask, a.sym.width)
    else if a.cst.Str? && b.cst.Str? then StrCmp(a.cst.name, b.cst.name)
    else 0
  }

  function Flatten(items: seq<Expr>): (r: seq<Expr>)
  {
    if items == [] then [] else Splice(Or, items[0]) + Flatten(items[1..])
  }

  /** Sorts the disjuncts and removes the duplicates. */
  function SortUnique(es: seq<Expr>): (r: seq<Expr>)
    ensures forall x :: x in r ==> x in es
    ensures es != [] ==> r != []
  {
    Dedup(Sort(es, CmpOrder), CmpOrder)
  }

  function OrItems(items: seq<Expr>): (r: Expr)
  {
    var e := Fix(Or, Flatten(items));
    if e.AndOr? && e.op == Or then Fix(Or, SortUnique(e.subs)) else e
  }

  lemma BitsEqual(a: Bits, b: Bits, w: nat)
    requires a <= Range(0, w) && b <= Range(0, w) && Compare(a, b, w) == 0
    ensures a == b
  {
    CompareZero(a, b, w);
    forall i ensures i in a <==> i in b {
      assert i in a ==> i in Range(0, w);
      assert i in b ==> i in Range(0, w);
    }
  }

  lemma CmpOrderSeparates(a: Expr, b: Expr, sym: Symbol, tab: SymTab)
    requires CmpOn(a, sym, tab) && CmpOn(b, sym, tab)
    ensures CmpOrder(a, b) == 0 ==> a == b
    ensures CmpOrder(a, b) == -CmpOrder(b, a)
  {
    if a.cst.Num? {
      CompareAntisymmetric(a.cst.value, b.cst.value, sym.width);
      CompareAntisymmetric(a.cst.mask, b.cst.mask, sym.width);
      if CmpOrder(a, b) == 0 {
        BitsEqual(a.cst.value, b.cst.value, sym.width);
        BitsEqual(a.cst.mask, b.cst.mask, sym.width);
      }
    } else {
      StrCmpAntisymmetric(a.cst.name, b.cst.name);
      StrCmpZero(a.cst.name, b.cst.name);
    }
  }

  lemma CmpOrderTransitive(a: Expr, b: Expr, c: Expr, sym: Symbol, tab: SymTab)
    requires CmpOn(a, sym, tab) && CmpOn(b, sym, tab) && CmpOn(c, sym, tab)
    requires CmpOrder(a, b) <= 0 && CmpOrder(b, c) <= 0
    ensures CmpOrder(a, c) <= 0
  {
    if a.cst.Num? {
      var w := sym.width;
      CompareTransitive(a.cst.value, b.cst.value, c.cst.value, w);
      if Compare(a.cst.value, c.cst.value, w) == 0 {
        CompareSame(a.cst.value, b.cst.value, c.cst.value, w);
        CompareTransitive(a.cst.mask, b.cst.mask, c.cst.mask, w);
      }
    } else {
      StrCmpTransitive(a.cst.name, b.cst.name, c.cst.name);
    }
  }

  lemma CompareSame(a: Bits, b: Bits, c: Bits, w: nat)
    requires Compare(a, b, w) <= 0 && Compare(b, c, w) <= 0 && Compare(a, c, w) == 0
    ensures Compare(a, b, w) == 0 && Compare(b, c, w) == 0
  {
  }

  lemma CmpOrderTotal(es: seq<Expr>, sym: Symbol, tab: SymTab)
    requires forall x :: x in es ==> CmpOn(x, sym, tab)
    ensures TotalOn(Members(es), CmpOrder) && Separates(Members(es), CmpOrder)
    ensures forall a, b :: a in Members(es) && b in Members(es) && CmpOrder(a, b) <= 0 && CmpOrder(b, a) <= 0 ==>
              CmpOrder(a, b) == 0
  {
    forall a, b | a in Members(es) && b in Members(es)
      ensures CmpOrder(a, b) == -CmpOrder(b, a) && (CmpOrder(a, b) == 0 ==> a == b)
    {
      CmpOrderSeparates(a, b, sym, tab);
    }
    forall a, b, c | a in Members(es) && b in Members(es) && c in Members(es) && CmpOrder(a, b) <= 0
      && CmpOrder(b, c) <= 0
      ensures CmpOrder(a, c) <= 0
    {
      CmpOrderTransitive(a, b, c, sym, tab);
    }
  }

  /** Sorting loses no disjunct and leaves each one once. */
  lemma SortUniqueExact(es: seq<Expr>, sym: Symbol, tab: SymTab)
    requires forall x :: x in es ==> CmpOn(x, sym, tab)
    ensures forall x :: x in SortUnique(es) <==> x in es
    ensures Distinct(SortUnique(es))
  {
    CmpOrderTotal(es, sym, tab);
    var sorted := Sort(es, CmpOrder);
    SortSorted(es, CmpOrder, Members(es));
    DedupKeeps(sorted, CmpOrder, Members(es));
    DedupDistinct(sorted, CmpOrder, Members(es));
  }

  lemma {:induction false} FlattenCorrect(items: seq<Expr>, sym: Symbol, env: Env, tab: SymTab)
    requires Items(items, sym, tab)
    ensures forall x :: x in Flatten(items) ==> x == Bool(false) || CmpOn(x, sym, tab)
    ensures EvalSeq(Or, Flatten(items), env) == EvalSeq(Or, items, env)
  {
    if items != [] {
      assert items[0] in items && items == [items[0]] + items[1..];
      FlattenCorrect(items[1..], sym, env, tab);
      EvalSplice(Or, items[0], env);
      EvalConcat(Or, Splice(Or, items[0]), Flatten(items[1..]), env);
      EvalCons(Or, items[0], items[1..], env);
    }
  }

  lemma OrItemsCorrect(items: seq<Expr>, sym: Symbol, env: Env, tab: SymTab)
    requires Items(items, sym, tab)
    ensures Crushed(OrItems(items), sym, tab)
    ensures Eval(OrItems(items), env) == EvalSeq(Or, items, env)
  {
    FlattenCorrect(items, sym, env, tab);
    var flat := Flatten(items);
    var e := Fix(Or, flat);
    EvalFix(Or, flat, env);
    var ds := DropBools(flat);
    assert forall x :: x in ds ==> CmpOn(x, sym, tab);
    assert e == Junction(Or, ds);
    if |ds| >= 2 {
      SortUniqueExact(ds, sym, tab);
      EvalSameMembers(Or, ds, SortUnique(ds), env);
      EvalFix(Or, SortUnique(ds), env);
      EvalAndOr(Or, ds, env);
      FixCmps(SortUnique(ds), sym, tab);
    } else if |ds| == 1 {
      assert ds[0] in ds;
    }
  }

  lemma FixCmps(es: seq<Expr>, sym: Symbol, tab: SymTab)
    requires es != [] && forall x :: x in es ==> CmpOn(x, sym, tab)
    ensures Clause(Fix(Or, es), sym, tab)
  {
    var ds := DropBools(es);
    assert es[0] in es && es[0] in ds;
    assert ds[0] in ds;
  }

  lemma OrItemsForm(items: seq<Expr>, sym: Symbol, tab: SymTab)
    requires Items(items, sym, tab)
    ensures Crushed(OrItems(items), sym, tab)
  {
    OrItemsCorrect(items, sym, Env(_ => {}, _ => None, _ => false), tab);
  }

  // ----- crush_cmps()

  lemma AndShortForm(sym: Symbol, acc: Constant, ors: seq<Expr>, tab: SymTab)
    requires sym.width > 0 && sym.name in tab && tab[sym.name] == sym
    requires WellMasked(acc, sym) && |ors| < 2 && OrClauses(ors, sym, tab) && (ors == [] ==> acc.mask != {})
    ensures Crushed(AndShort(sym, acc, ors), sym, tab)
  {
    AndShortCorrect(sym, acc, ors, Env(_ => {}, _ => None, _ => false), tab);
  }

  /** Everything 'Crush' needs to know about the gathered operands of an AND. */
  lemma GatherReady(items: seq<Expr>, sym: Symbol, tab: SymTab)
    requires sym.width > 0 && Items(items, sym, tab) && |items| >= 2
    ensures forall x :: x in items && x.Cmp? ==> x.cst.Num?
    ensures var g := Gather(items, Num({}, {}));
            g.Some? ==>
              && WellMasked(g.value.0, sym) && OrClauses(g.value.1, sym, tab)
              && |g.value.1| == CountOrs(items)
              && (g.value.1 == [] ==> g.value.0.mask != {})
  {
    GatherForm(items, Num({}, {}), sym, tab);
  }

  function Crush(e: Expr, sym: Symbol, ghost tab: SymTab): (r: Expr)
    requires OnSym(e, sym, tab)
    ensures Crushed(r, sym, tab)
    ensures e.Cmp? ==> r == e
    decreases 2 * Height(e), if e.AndOr? then CountOrs(e.subs) else 0
  {
    match e
    case Cmp(_, _, _) => e
    case AndOr(Or, subs) =>
      var items := CrushAll(subs, sym, tab);
      OrItemsForm(items, sym, tab);
      OrItems(items)
    case AndOr(And, subs) =>
      OnSymInTab(e, sym, tab);
      var items := CrushAll(subs, sym, tab);
      if sym.width == 0 then
        AndStringForm(items, sym, tab);
        AndString(items)
      else
        GatherReady(items, sym, tab);
        match Gather(items, Num({}, {}))
        case None => Bool(false)
        case Some((acc, ors)) =>
          if |ors| < 2 then
            AndShortForm(sym, acc, ors, tab);
            AndShort(sym, acc, ors)
          else
            PairUpForm(sym, acc, ors, tab);
            CountOrsHeight(subs);
            var next := PairUp(sym, acc, ors);
            if next.Bool? then next else Crush(next, sym, tab)
  }

  function CrushAll(subs: seq<Expr>, sym: Symbol, ghost tab: SymTab): (r: seq<Expr>)
    requires forall s :: s in subs ==> OnSym(s, sym, tab)
    ensures |r| == |subs| && Items(r, sym, tab)
    ensures (forall s :: s in subs ==> !(s.AndOr? && s.op == And)) ==> CountOrs(r) <= CountOrs(subs)
    decreases 2 * MaxHeight(subs) + 1, |subs|
  {
    if subs == [] then []
    else
      assert subs == [subs[0]] + subs[1..];
      [Crush(subs[0], sym, tab)] + CrushAll(subs[1..], sym, tab)
  }

  lemma OnSymInTab(e: Expr, sym: Symbol, tab: SymTab)
    requires OnSym(e, sym, tab)
    ensures sym.name in tab && tab[sym.name] == sym
  {
    if e.AndOr? {
      assert e.subs[0] in e.subs;
      OnSymInTab(e.subs[0], sym, tab);
    }
  }

  /** Crushing keeps the meaning. */
  lemma {:induction false} CrushCorrect(e: Expr, sym: Symbol, env: Env, tab: SymTab)
    requires OnSym(e, sym, tab) && ValidEnv(env)
    ensures Eval(Crush(e, sym, tab), env) == Eval(e, env)
    decreases 2 * Height(e), if e.AndOr? then CountOrs(e.subs) else 0, 1
  {
    if e.AndOr? {
      var items := CrushAll(e.subs, sym, tab);
      CrushAllCorrect(e.op, e.subs, sym, env, tab);
      EvalAndOr(e.op, e.subs, env);
      if e.op == Or {
        OrItemsCorrect(items, sym, env, tab);
      } else if sym.width == 0 {
        AndStringCorrect(items, sym, env, tab);
      } else {
        OnSymInTab(e, sym, tab);
        CrushNumericCorrect(e, sym, env, tab);
      }
    }
  }

  lemma {:induction false} CrushNumericCorrect(e: Expr, sym: Symbol, env: Env, tab: SymTab)
    requires OnSym(e, sym, tab) && ValidEnv(env) && e.AndOr? && e.op == And && sym.width > 0
    requires EvalSeq(And, CrushAll(e.subs, sym, tab), env) == Eval(e, env)
    ensures Eval(Crush(e, sym, tab), env) == Eval(e, env)
    decreases 2 * Height(e), CountOrs(e.subs), 0
  {
    var items := CrushAll(e.subs, sym, tab);
    OnSymInTab(e, sym, tab);
    GatherReady(items, sym, tab);
    GatherMeaning(items, Num({}, {}), sym, env, tab);
    var g := Gather(items, Num({}, {}));
    if g.Some? {
      var (acc, ors) := g.value;
      if |ors| < 2 {
        AndShortCorrect(sym, acc, ors, env, tab);
      } else {
        PairUpForm(sym, acc, ors, tab);
        CountOrsHeight(e.subs);
        PairUpMeaning(sym, acc, ors, env, tab);
        var next := PairUp(sym, acc, ors);
        if !next.Bool? {
          CrushCorrect(next, sym, env, tab);
        }
      }
    }
  }

  lemma {:induction false} CrushAllCorrect(op: Op, subs: seq<Expr>, sym: Symbol, env: Env, tab: SymTab)
    requires ValidEnv(env) && forall s :: s in subs ==> OnSym(s, sym, tab)
    ensures EvalSeq(op, CrushAll(subs, sym, tab), env) == EvalSeq(op, subs, env)
    decreases 2 * MaxHeight(subs) + 1, |subs|
  {
    if subs != [] {
      assert subs == [subs[0]] + subs[1..];
      CrushCorrect(subs[0], sym, env, tab);
      CrushAllCorrect(op, subs[1..], sym, env, tab);
      EvalCons(op, Crush(subs[0], sym, tab), CrushAll(subs[1..], sym, tab), env);
      EvalCons(op, subs[0], subs[1..], env);
    }
  }

  // ----- no duplicates

  lemma {:induction false} NothingDropped(es: seq<Expr>)
    requires forall x :: x in es ==> !x.Bool?
    ensures DropBools(es) == es
  {
    if es != [] {
      assert es == [es[0]] + es[1..];
      NothingDropped(es[1..]);
    }
  }

  lemma OrItemsDistinct(items: seq<Expr>, sym: Symbol, tab: SymTab)
    requires Items(items, sym, tab)
    ensures OrItems(items).AndOr? ==> Distinct(OrItems(items).subs)
  {
    FlattenCorrect(items, sym, Env(_ => {}, _ => None, _ => false), tab);
    var ds := DropBools(Flatten(items));
    assert Fix(Or, Flatten(items)) == Junction(Or, ds);
    if |ds| >= 2 {
      SortUniqueExact(ds, sym, tab);
      NothingDropped(SortUnique(ds));
    } else if |ds| == 1 {
      assert ds[0] in ds;
    }
  }

  /** Crushing a disjunction leaves every disjunct once. */
  lemma CrushedOrDistinct(e: Expr, sym: Symbol, tab: SymTab)
    requires OnSym(e, sym, tab) && e.AndOr? && e.op == Or
    ensures Crush(e, sym, tab).AndOr? ==> Distinct(Crush(e, sym, tab).subs)
  {
    OrItemsDistinct(CrushAll(e.subs, sym, tab), sym, tab);
  }
}
