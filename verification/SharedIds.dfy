/** A match whose conjunction ids run out: two fields without prerequisites, such as
  * eth.dst and eth.src, each of which may have one of two values. */
module SharedIds {
  import opened Util
  import opened Bits
  import opened Expressions
  import opened Simplification
  import opened Sorting
  import opened Crushing
  import opened Normalization
  import opened Matches
  import opened LogicalFlows
  import opened ConjunctionIds

  function EitherOf(sym: Symbol, a: Constant, b: Constant): (r: Expr) {
    AndOr(Or, [Cmp(sym, EQ, a), Cmp(sym, EQ, b)])
  }

  /** The field is one of the two constants, which are different and in order. */
  predicate Choice(sym: Symbol, a: Constant, b: Constant, tab: SymTab) {
    && a.Num? && b.Num? && a.mask != {} && b.mask != {} && !sym.mustCrossproduct
    && WfCmp(sym, EQ, a, tab) && WfCmp(sym, EQ, b, tab)
    && CmpOrder(Cmp(sym, EQ, a), Cmp(sym, EQ, b)) < 0
  }

  function TwoChoices(f: Symbol, a1: Constant, a2: Constant, g: Symbol, b1: Constant, b2: Constant): (r: Expr) {
    AndOr(And, [EitherOf(f, a1, a2), EitherOf(g, b1, b2)])
  }

  lemma ChoiceForm(sym: Symbol, a: Constant, b: Constant, tab: SymTab)
    requires Choice(sym, a, b, tab)
    ensures var e := EitherOf(sym, a, b); Wf(e, tab) && Core(e, tab) && OnSym(e, sym, tab) && UniqueSym(e) == Some(sym)
  {
    var e := EitherOf(sym, a, b);
    assert OnSym(e, sym, tab) && Core(e, tab);
    UniqueIsOn(e, sym, tab);
  }

  // ----- simplification leaves it as it is

  lemma SimplifyTwo(op: Op, x: Expr, y: Expr, resident: string -> bool)
    requires Simplify(x, resident) == x && Simplify(y, resident) == y && !x.Bool? && !y.Bool?
    requires !(x.AndOr? && x.op == op) && !(y.AndOr? && y.op == op)
    ensures Simplify(AndOr(op, [x, y]), resident) == AndOr(op, [x, y])
  {
    var es := [x, y];
    assert es[1..] == [y] && es[1..][1..] == [];
    assert SimplifyAll(op, [y], resident) == [y] + [];
    assert SimplifyAll(op, es, resident) == [x] + [y];
    assert [x] + [y] == es;
    DropNone(x, y);
  }

  lemma DropNone(x: Expr, y: Expr)
    requires !x.Bool? && !y.Bool?
    ensures DropBools([x, y]) == [x, y] && forall b :: Bool(b) !in [x, y]
  {
    assert [x, y][1..] == [y] && [y][1..] == [];
    assert DropBools([y]) == [y] + [];
    assert DropBools([x, y]) == [x] + [y];
  }

  lemma SimplifySame(f: Symbol, a1: Constant, a2: Constant, g: Symbol, b1: Constant, b2: Constant,
                     resident: string -> bool, tab: SymTab)
    requires Choice(f, a1, a2, tab) && Choice(g, b1, b2, tab)
    ensures var e := TwoChoices(f, a1, a2, g, b1, b2); Simplify(e, resident) == e
  {
    SimplifyTwo(Or, Cmp(f, EQ, a1), Cmp(f, EQ, a2), resident);
    SimplifyTwo(Or, Cmp(g, EQ, b1), Cmp(g, EQ, b2), resident);
    SimplifyTwo(And, EitherOf(f, a1, a2), EitherOf(g, b1, b2), resident);
  }

  // ----- and so does normalisation

  lemma SortTwo<T(!new)>(x: T, y: T, cmp: (T, T) -> int)
    requires cmp(x, y) <= 0
    ensures Sort([x, y], cmp) == [x, y]
  {
    assert [x, y][1..] == [y] && [y][1..] == [];
    assert Sort([y], cmp) == Insert(y, [], cmp) == [y];
    assert Insert(x, [y], cmp) == [x] + [y];
  }

  lemma CrushChoice(sym: Symbol, a: Constant, b: Constant, tab: SymTab)
    requires Choice(sym, a, b, tab)
    ensures OnSym(EitherOf(sym, a, b), sym, tab) && Crush(EitherOf(sym, a, b), sym, tab) == EitherOf(sym, a, b)
  {
    var x, y := Cmp(sym, EQ, a), Cmp(sym, EQ, b);
    ChoiceForm(sym, a, b, tab);
    assert [x, y][1..] == [y] && [y][1..] == [];
    assert CrushAll([y], sym, tab) == [y] + [];
    assert CrushAll([x, y], sym, tab) == [x] + [y];
    assert [x] + [y] == [x, y];
    FlattenTwo(x, y);
    DropNone(x, y);
    SortTwo(x, y, CmpOrder);
    assert DedupFrom(x, [y], CmpOrder) == [y] + [];
    assert Dedup([x, y], CmpOrder) == [x] + [y];
  }

  lemma FlattenTwo(x: Expr, y: Expr)
    requires x.Cmp? && y.Cmp?
    ensures Flatten([x, y]) == [x, y]
  {
    assert [x, y][1..] == [y] && [y][1..] == [];
    assert Flatten([y]) == [y] + [];
    assert Flatten([x, y]) == [x] + [y];
  }

  /** Two fields, in the order of their names. */
  predicate InOrder(f: Symbol, g: Symbol) {
    StrCmp(f.name, g.name) < 0
  }

  /** An operand over one symbol that crushing leaves as it is. */
  ghost predicate Settled(x: Expr, sym: Symbol, tab: SymTab) {
    Operand(x, tab) && OnSym(x, sym, tab) && UniqueSym(x) == Some(sym) && Crush(x, sym, tab) == x
  }

  lemma CrushBoth(x: Expr, f: Symbol, y: Expr, g: Symbol, tab: SymTab)
    requires Settled(x, f, tab) && Settled(y, g, tab) && f != g
    ensures OperandList([x, y], tab) && CrushRuns([x, y], tab) == Some([x, y])
  {
    assert OperandList([x, y], tab) && OperandList([y], tab);
    OneRun(y, [], g, tab);
    assert [y] + [] == [y];
    OneRun(x, [y], f, tab);
    assert [x] + [y] == [x, y];
  }

  lemma OneRun(x: Expr, rest: seq<Expr>, sym: Symbol, tab: SymTab)
    requires OperandList([x] + rest, tab) && OperandList(rest, tab) && OnSym(x, sym, tab) && UniqueSym(x) == Some(sym)
    requires !Mentions(rest, sym) && Crush(x, sym, tab) == x
    ensures CrushRuns([x] + rest, tab) == InFront(x, CrushRuns(rest, tab))
  {
    var es := [x] + rest;
    assert es[1..] == rest && RunLength(rest, sym) == 0 by {
      assert rest != [] ==> rest[0] in rest;
    }
    assert es[..1] == [x];
    RunInFront(es, sym, 1, tab);
  }

  lemma NormalizeSame(f: Symbol, a1: Constant, a2: Constant, g: Symbol, b1: Constant, b2: Constant, tab: SymTab)
    requires Choice(f, a1, a2, tab) && Choice(g, b1, b2, tab) && InOrder(f, g)
    ensures var e := TwoChoices(f, a1, a2, g, b1, b2); Simplified(e, tab) && Normalize(e, tab) == e
  {
    var x, y := EitherOf(f, a1, a2), EitherOf(g, b1, b2);
    ChoiceForm(f, a1, a2, tab);
    ChoiceForm(g, b1, b2, tab);
    assert Core(TwoChoices(f, a1, a2, g, b1, b2), tab);
    SortTwo(x, y, SortOrder);
    CrushChoice(f, a1, a2, tab);
    CrushChoice(g, b1, b2, tab);
    StrCmpZero(f.name, g.name);
    CrushBoth(x, f, y, g, tab);
    assert ExprSort([x, y], tab) == AndOr(And, [x, y]);
    assert [x, y][1..] == [y] && [y][1..] == [];
    assert MergeAdjacent([y]) == Some([y]);
    assert MergeAdjacent([x, y]) == Some([x] + [y]);
    assert ExpandIndex([y]) == 1 && ExpandIndex([x, y]) == 2;
  }

  // ----- its flows

  lemma {:induction false} AllOrs(cs: seq<Expr>)
    requires forall c :: c in cs ==> !c.Cmp?
    ensures CmpsOf(cs) == [] && OrsOf(cs) == cs
  {
    if cs != [] {
      assert cs[0] in cs && cs == [cs[0]] + cs[1..];
      AllOrs(cs[1..]);
    }
  }

  lemma OneConjunction(x: Expr, y: Expr, lookup: string -> Option<Bits>)
    requires x.AndOr? && x.op == Or && AllCmps(x.subs) && x.subs != [] && x.subs[0].cst.Num?
    requires y.AndOr? && y.op == Or && AllCmps(y.subs) && y.subs != [] && y.subs[0].cst.Num?
    ensures Clauses([x, y])
    ensures var (ems, n) := Conjunction([x, y], 0, lookup); n == 1 && ConjIdFlow(CATCHALL, 1) in ems
  {
    assert [x, y][1..] == [y] && [y][1..] == [];
    AllOrs([x, y]);
    SomeFlow(x.subs, CATCHALL, Some(Conj(1, 0, 2)), lookup);
    SomeFlow(y.subs, CATCHALL, Some(Conj(1, 1, 2)), lookup);
    assert Conjunctive([], 2, 2, 1, CATCHALL, lookup) == [ConjIdFlow(CATCHALL, 1)];
    assert ConjIdFlow(CATCHALL, 1) in Conjunctive([y], 1, 2, 1, CATCHALL, lookup);
    assert ConjIdFlow(CATCHALL, 1) in Conjunctive([x, y], 0, 2, 1, CATCHALL, lookup);
  }

  lemma SomeFlow(or: seq<Expr>, m: Match, conj: Option<Conj>, lookup: string -> Option<Bits>)
    requires or != [] && AllCmps(or) && or[0].cst.Num?
    ensures Disjunction(or, m, conj, lookup) != []
  {
  }

  lemma CompileFixed(e: Expr, env: Env, tab: SymTab)
    requires Wf(e, tab) && e.AndOr? && e.op == And && Clauses(e.subs)
    requires Simplify(e, env.resident) == e && Simplified(e, tab) && Normalize(e, tab) == e
    ensures var (ems, n) := Conjunction(e.subs, 0, env.lookup);
            Compile(e, env.resident, env.lookup, tab) == (Build(ems), n)
  {
  }

  lemma CompileSame(f: Symbol, a1: Constant, a2: Constant, g: Symbol, b1: Constant, b2: Constant, env: Env,
                    tab: SymTab)
    requires Choice(f, a1, a2, tab) && Choice(g, b1, b2, tab) && InOrder(f, g)
    ensures var e := TwoChoices(f, a1, a2, g, b1, b2);
            && Wf(e, tab) && Clauses(e.subs)
            && var (ems, n) := Conjunction(e.subs, 0, env.lookup);
            Compile(e, env.resident, env.lookup, tab) == (Build(ems), n)
  {
    ChoiceForm(f, a1, a2, tab);
    ChoiceForm(g, b1, b2, tab);
    var e := TwoChoices(f, a1, a2, g, b1, b2);
    assert Wf(e, tab);
    SimplifySame(f, a1, a2, g, b1, b2, env.resident, tab);
    NormalizeSame(f, a1, a2, g, b1, b2, tab);
    CompileFixed(e, env, tab);
  }

  lemma TableUsesId(ems: seq<Emission>, id: nat)
    requires ConjIdFlow(CATCHALL, id) in ems
    ensures UsesId(Build(ems), id) && Build(ems) != map[]
  {
    BuildDescribes(ems);
    var m := CATCHALL.(conjId := Some(id));
    assert ConjIdFlow(CATCHALL, id).m == m;
    assert m in Build(ems) && UsesIdAt(Build(ems), m, id);
  }

  /** The match takes one conjunction id, and uses it. */
  lemma CompileChoices(f: Symbol, a1: Constant, a2: Constant, g: Symbol, b1: Constant, b2: Constant, env: Env,
                       tab: SymTab)
    requires Choice(f, a1, a2, tab) && Choice(g, b1, b2, tab) && InOrder(f, g) && ValidEnv(env)
    ensures var e := TwoChoices(f, a1, a2, g, b1, b2);
            && Wf(e, tab)
            && var c := Compile(e, env.resident, env.lookup, tab);
            Numbered(c) && UsesAll(c) && IdsFor(c) == 1
  {
    var e := TwoChoices(f, a1, a2, g, b1, b2);
    CompileSame(f, a1, a2, g, b1, b2, env, tab);
    CompileIds(e, env, tab);
    OneConjunction(EitherOf(f, a1, a2), EitherOf(g, b1, b2), env.lookup);
    TableUsesId(Conjunction(e.subs, 0, env.lookup).0, 1);
  }

  /** Of 2^32 + 1 logical flows with such a match, two share a conjunction id. */
  lemma TooManyFlows(f: Symbol, a1: Constant, a2: Constant, g: Symbol, b1: Constant, b2: Constant, env: Env,
                     tab: SymTab, cs: seq<Compiled>, tables: seq<Table>)
    requires Choice(f, a1, a2, tab) && Choice(g, b1, b2, tab) && InOrder(f, g) && ValidEnv(env)
    requires Wf(TwoChoices(f, a1, a2, g, b1, b2), tab) && |cs| == U32 + 1
    requires forall i :: 0 <= i < |cs| ==>
               cs[i] == Compile(TwoChoices(f, a1, a2, g, b1, b2), env.resident, env.lookup, tab)
    requires |tables| == |cs| && ShiftedUpTo(cs, tables)
    ensures exists i: nat, j: nat, id: nat :: SharedId(tables, i, j, id)
  {
    CompileChoices(f, a1, a2, g, b1, b2, env, tab);
    var c := Compile(TwoChoices(f, a1, a2, g, b1, b2), env.resident, env.lookup, tab);
    assert forall d :: d in cs ==> d == c;
    TooMany(cs, tables, c);
  }
}
