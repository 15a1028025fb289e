/** expr_sort() and expr_normalize(): OR(AND(clause)) with each symbol in at
  * most one clause of an AND. */
module Normalization {
  import opened Util
  import opened Expressions
  import opened Simplification
  import opened Sorting
  import opened Crushing

  /** An operand of an AND. */
  predicate Operand(e: Expr, tab: SymTab) {
    Core(e, tab) && !(e.AndOr? && e.op == And)
  }

  ghost predicate OperandList(es: seq<Expr>, tab: SymTab) {
    forall e :: e in es ==> Operand(e, tab)
  }

  // ----- expr_sort()

  /** EXPR_T_CMP, EXPR_T_AND, ... in the order of the enumeration; an operand
    * over a single symbol counts as a comparison. */
  function SortType(e: Expr): (r: int) {
    if UniqueSym(e).Some? then 0
    else match e
      case Cmp(_, _, _) => 0
      case AndOr(op, _) => if op == And then 1 else 2
      case Bool(_) => 3
      case Cond(_, _) => 4
  }

  function SortOrder(a: Expr, b: Expr): (r: int) {
    if SortType(a) != SortType(b) then SortType(a) - SortType(b)
    else if UniqueSym(a).Some? && UniqueSym(b).Some? then StrCmp(UniqueSym(a).value.name, UniqueSym(b).value.name)
    else if a.AndOr? && b.AndOr? then |a.subs| - |b.subs|
    else 0
  }

  /** How many operands at the front are over 'sym'. */
  function RunLength(es: seq<Expr>, sym: Symbol): (r: nat)
    ensures r <= |es|
    ensures forall e :: e in es[..r] ==> UniqueSym(e) == Some(sym)
    ensures r < |es| ==> UniqueSym(es[r]) != Some(sym)
    ensures es != [] && UniqueSym(es[0]) == Some(sym) ==> r > 0
  {
    if es == [] || UniqueSym(es[0]) != Some(sym) then 0
    else
      var n := RunLength(es[1..], sym);
      assert es[..n + 1] == [es[0]] + es[1..][..n];
      n + 1
  }

  lemma RunOnSym(es: seq<Expr>, sym: Symbol, tab: SymTab)
    requires es != [] && OperandList(es, tab) && forall e :: e in es ==> UniqueSym(e) == Some(sym)
    ensures OnSym(Junction(And, es), sym, tab)
  {
    assert es[0] in es;
    forall e | e in es ensures OnSym(e, sym, tab) {
      UniqueIsOn(e, sym, tab);
    }
  }

  /** Crushes each run of operands over the same symbol; None if that shows the
    * whole conjunction to be false. */
  function CrushRuns(es: seq<Expr>, ghost tab: SymTab): (r: Option<seq<Expr>>)
    requires OperandList(es, tab)
  {
    if es == [] then Some([])
    else
      assert es[0] in es;
      match UniqueSym(es[0])
      case Some(sym) =>
        var n := RunLength(es, sym);
        assert es == es[..n] + es[n..];
        RunOnSym(es[..n], sym, tab);
        var crushed := Crush(Junction(And, es[..n]), sym, tab);
        if crushed == Bool(false) then None
        else
          (match CrushRuns(es[n..], tab)
           case None => None
           case Some(rest) => Some((if crushed.Bool? then [] else [crushed]) + rest))
      case None =>
        assert es == es[..1] + es[1..];
        match CrushRuns(es[1..], tab)
        case None => None
        case Some(rest) => Some([es[0]] + rest)
  }

  function ExprSort(es: seq<Expr>, ghost tab: SymTab): (r: Expr)
    requires OperandList(es, tab)
  {
    match CrushRuns(Sort(es, SortOrder), tab)
    case None => Bool(false)
    case Some(cs) => Junction(And, cs)
  }

  lemma EvalSplit(op: Op, es: seq<Expr>, n: nat, env: Env)
    requires n <= |es|
    ensures EvalSeq(op, es, env) == Join(op, EvalSeq(op, es[..n], env), EvalSeq(op, es[n..], env))
  {
    assert es == es[..n] + es[n..];
    EvalConcat(op, es[..n], es[n..], env);
  }

  /** A run may be crushed by itself. */
  lemma RunMeaning(es: seq<Expr>, sym: Symbol, n: nat, env: Env, tab: SymTab)
    requires OperandList(es, tab) && ValidEnv(env) && es != []
    requires UniqueSym(es[0]) == Some(sym) && n == RunLength(es, sym)
    ensures OperandList(es[n..], tab) && OnSym(Junction(And, es[..n]), sym, tab)
    ensures EvalSeq(And, es, env) <==>
            Eval(Crush(Junction(And, es[..n]), sym, tab), env) && EvalSeq(And, es[n..], env)
  {
    assert OperandList(es[..n], tab) && OperandList(es[n..], tab) by { assert es == es[..n] + es[n..]; }
    RunOnSym(es[..n], sym, tab);
    CrushCorrect(Junction(And, es[..n]), sym, env, tab);
    EvalJunction(And, es[..n], env);
    EvalSplit(And, es, n, env);
  }

  /** One more operand in front, unless it decides the conjunction. */
  function InFront(c: Expr, rest: Option<seq<Expr>>): (r: Option<seq<Expr>>) {
    if c == Bool(false) || rest.None? then None else Some((if c.Bool? then [] else [c]) + rest.value)
  }

  lemma InFrontMeaning(c: Expr, rest: Option<seq<Expr>>, env: Env)
    ensures var r := InFront(c, rest);
            r.Some? && EvalSeq(And, r.value, env) <==> Eval(c, env) && rest.Some? && EvalSeq(And, rest.value, env)
  {
    if rest.Some? {
      EvalCons(And, c, rest.value, env);
      assert [] + rest.value == rest.value;
    }
  }

  lemma RunInFront(es: seq<Expr>, sym: Symbol, n: nat, tab: SymTab)
    requires OperandList(es, tab) && es != [] && UniqueSym(es[0]) == Some(sym) && n == RunLength(es, sym)
    requires OperandList(es[n..], tab) && OnSym(Junction(And, es[..n]), sym, tab)
    ensures CrushRuns(es, tab) == InFront(Crush(Junction(And, es[..n]), sym, tab), CrushRuns(es[n..], tab))
  {
  }

  lemma SingleInFront(es: seq<Expr>, tab: SymTab)
    requires OperandList(es, tab) && es != [] && UniqueSym(es[0]).None?
    ensures OperandList(es[1..], tab) && CrushRuns(es, tab) == InFront(es[0], CrushRuns(es[1..], tab))
  {
    assert es[0] in es && es == [es[0]] + es[1..];
  }

  lemma {:induction false} CrushRunsMeaning(es: seq<Expr>, env: Env, tab: SymTab)
    requires OperandList(es, tab) && ValidEnv(env)
    ensures var r := CrushRuns(es, tab);
            EvalSeq(And, es, env) <==> r.Some? && EvalSeq(And, r.value, env)
    decreases |es|
  {
    if es != [] {
      match UniqueSym(es[0])
      case Some(sym) =>
        var n := RunLength(es, sym);
        RunMeaning(es, sym, n, env, tab);
        RunInFront(es, sym, n, tab);
        CrushRunsMeaning(es[n..], env, tab);
        InFrontMeaning(Crush(Junction(And, es[..n]), sym, tab), CrushRuns(es[n..], tab), env);
      case None =>
        SingleInFront(es, tab);
        CrushRunsMeaning(es[1..], env, tab);
        assert es == [es[0]] + es[1..];
        EvalCons(And, es[0], es[1..], env);
        InFrontMeaning(es[0], CrushRuns(es[1..], tab), env);
    }
  }

  lemma ExprSortMeaning(es: seq<Expr>, env: Env, tab: SymTab)
    requires OperandList(es, tab) && ValidEnv(env)
    ensures Eval(ExprSort(es, tab), env) == EvalSeq(And, es, env)
  {
    var sorted := Sort(es, SortOrder);
    CrushRunsMeaning(sorted, env, tab);
    EvalSameMembers(And, es, sorted, env);
    var r := CrushRuns(sorted, tab);
    if r.Some? {
      EvalJunction(And, r.value, env);
    }
  }

  // ----- form of the sorted operands

  lemma ClauseUnique(e: Expr, sym: Symbol, tab: SymTab)
    requires Clause(e, sym, tab)
    ensures UniqueSym(e) == Some(sym) && Operand(e, tab)
  {
    ClauseOnSym(e, sym, tab);
    OnSymIsCore(e, sym, tab);
    UniqueIsOn(e, sym, tab);
  }

  /** A clause, or an operand over several symbols. */
  predicate SortedOperand(e: Expr, tab: SymTab) {
    Operand(e, tab) && (UniqueSym(e).Some? ==> Clause(e, UniqueSym(e).value, tab))
  }

  lemma {:induction false} CrushRunsForm(es: seq<Expr>, tab: SymTab)
    requires OperandList(es, tab)
    ensures var r := CrushRuns(es, tab);
            r.Some? ==>
              && (forall c :: c in r.value ==> SortedOperand(c, tab))
              && (es != [] ==> r.value != [])
    decreases |es|
  {
    if es != [] {
      assert es[0] in es;
      match UniqueSym(es[0])
      case Some(sym) =>
        var n := RunLength(es, sym);
        assert OperandList(es[..n], tab) && OperandList(es[n..], tab) by { assert es == es[..n] + es[n..]; }
        RunOnSym(es[..n], sym, tab);
        var crushed := Crush(Junction(And, es[..n]), sym, tab);
        if crushed != Bool(false) {
          ClauseUnique(crushed, sym, tab);
          CrushRunsForm(es[n..], tab);
        }
      case None =>
        assert OperandList(es[1..], tab) by { assert es == es[..1] + es[1..]; }
        CrushRunsForm(es[1..], tab);
    }
  }

  /** The symbols that some operand is over. */
  predicate Mentions(es: seq<Expr>, sym: Symbol) {
    exists e :: e in es && UniqueSym(e) == Some(sym)
  }

  /** No two operands are over the same symbol. */
  predicate OneEach(es: seq<Expr>) {
    forall i, j :: 0 <= i < j < |es| && UniqueSym(es[i]).Some? ==> UniqueSym(es[i]) != UniqueSym(es[j])
  }

  lemma RunReady(es: seq<Expr>, sym: Symbol, n: nat, tab: SymTab)
    requires OperandList(es, tab) && es != [] && UniqueSym(es[0]) == Some(sym) && n == RunLength(es, sym)
    ensures OperandList(es[n..], tab) && OnSym(Junction(And, es[..n]), sym, tab)
  {
    assert es == es[..n] + es[n..];
    RunOnSym(es[..n], sym, tab);
  }

  lemma MentionsInFront(c: Expr, rest: Option<seq<Expr>>, es: seq<Expr>, n: nat, sym: Symbol)
    requires n <= |es| && InFront(c, rest).Some? && (Mentions(rest.value, sym) ==> Mentions(es[n..], sym))
    requires UniqueSym(c) == Some(sym) ==> Mentions(es, sym)
    ensures Mentions(InFront(c, rest).value, sym) ==> Mentions(es, sym)
  {
    if Mentions(es[n..], sym) {
      var x :| x in es[n..] && UniqueSym(x) == Some(sym);
      assert x in es;
    }
  }

  lemma {:induction false} CrushRunsMentions(es: seq<Expr>, sym: Symbol, tab: SymTab)
    requires OperandList(es, tab) && CrushRuns(es, tab).Some?
    ensures Mentions(CrushRuns(es, tab).value, sym) ==> Mentions(es, sym)
    decreases |es|
  {
    if es != [] {
      assert es[0] in es;
      match UniqueSym(es[0])
      case Some(first) =>
        var n := RunLength(es, first);
        RunReady(es, first, n, tab);
        RunInFront(es, first, n, tab);
        var crushed := Crush(Junction(And, es[..n]), first, tab);
        ClauseUnique(crushed, first, tab);
        CrushRunsMentions(es[n..], sym, tab);
        MentionsInFront(crushed, CrushRuns(es[n..], tab), es, n, sym);
      case None =>
        SingleInFront(es, tab);
        CrushRunsMentions(es[1..], sym, tab);
        MentionsInFront(es[0], CrushRuns(es[1..], tab), es, 1, sym);
    }
  }

  lemma SortedAt(es: seq<Expr>, i: nat, y: Expr)
    requires Sorted(es, SortOrder) && i < |es| && y in es[i + 1..]
    ensures SortOrder(es[i], y) <= 0
  {
    if i > 0 {
      assert es[1..][i..] == es[i + 1..];
      SortedAt(es[1..], i - 1, y);
    }
  }

  lemma SortedSuffix(es: seq<Expr>, n: nat)
    requires Sorted(es, SortOrder) && n <= |es|
    ensures Sorted(es[n..], SortOrder)
  {
    if n > 0 {
      SortedSuffix(es[1..], n - 1);
      assert es[1..][n - 1..] == es[n..];
    } else {
      assert es[0..] == es;
    }
  }

  /** Between two operands over one symbol there is none over another. */
  lemma BetweenIsSame(a: Expr, x: Expr, y: Expr, sym: Symbol, tab: SymTab)
    requires Operand(a, tab) && Operand(x, tab) && Operand(y, tab)
    requires UniqueSym(a) == Some(sym) && UniqueSym(y) == Some(sym) && SortOrder(a, x) <= 0 && SortOrder(x, y) <= 0
    ensures UniqueSym(x) == Some(sym)
  {
    var other := UniqueSym(x).value;
    StrCmpAntisymmetric(sym.name, other.name);
    StrCmpZero(sym.name, other.name);
    UniqueInTab(x, other, tab);
    UniqueInTab(y, sym, tab);
  }

  /** In sorted order, nothing after a run is over the run's symbol. */
  lemma RunIsWhole(es: seq<Expr>, sym: Symbol, tab: SymTab)
    requires OperandList(es, tab) && Sorted(es, SortOrder)
    requires es != [] && UniqueSym(es[0]) == Some(sym)
    ensures !Mentions(es[RunLength(es, sym)..], sym)
  {
    var n := RunLength(es, sym);
    if Mentions(es[n..], sym) {
      var y :| y in es[n..] && UniqueSym(y) == Some(sym);
      assert y in es[n + 1..] by { assert es[n..] == [es[n]] + es[n + 1..]; }
      SortedAt(es, n, y);
      assert es[n] in es[1..];
      SortedAt(es, 0, es[n]);
      BetweenIsSame(es[0], es[n], y, sym, tab);
    }
  }

  lemma UniqueInTab(e: Expr, sym: Symbol, tab: SymTab)
    requires Core(e, tab) && UniqueSym(e) == Some(sym)
    ensures sym.name in tab && tab[sym.name] == sym
  {
    UniqueIsOn(e, sym, tab);
    OnSymInTab(e, sym, tab);
  }

  lemma OneEachCons(e: Expr, es: seq<Expr>)
    requires OneEach(es) && (UniqueSym(e).Some? ==> !Mentions(es, UniqueSym(e).value))
    ensures OneEach([e] + es)
  {
    var r := [e] + es;
    forall i, j | 0 <= i < j < |r| && UniqueSym(r[i]).Some? ensures UniqueSym(r[i]) != UniqueSym(r[j]) {
      if i == 0 {
        assert r[j] in es;
      } else {
        assert r[i] == es[i - 1] && r[j] == es[j - 1];
      }
    }
  }

  lemma {:induction false} CrushRunsOneEach(es: seq<Expr>, tab: SymTab)
    requires OperandList(es, tab) && Sorted(es, SortOrder)
    ensures var r := CrushRuns(es, tab); r.Some? ==> OneEach(r.value)
    decreases |es|
  {
    if es != [] {
      assert es[0] in es;
      match UniqueSym(es[0])
      case Some(sym) =>
        var n := RunLength(es, sym);
        assert es == es[..n] + es[n..];
        RunOnSym(es[..n], sym, tab);
        var crushed := Crush(Junction(And, es[..n]), sym, tab);
        var rest := CrushRuns(es[n..], tab);
        if crushed != Bool(false) && rest.Some? {
          ClauseUnique(crushed, sym, tab);
          SortedSuffix(es, n);
          CrushRunsOneEach(es[n..], tab);
          RunIsWhole(es, sym, tab);
          CrushRunsMentions(es[n..], sym, tab);
          OneEachCons(crushed, rest.value);
        }
      case None =>
        assert es == es[..1] + es[1..];
        var rest := CrushRuns(es[1..], tab);
        if rest.Some? {
          CrushRunsOneEach(es[1..], tab);
          OneEachCons(es[0], rest.value);
        }
    }
  }

  lemma SortOrderTotal(es: seq<Expr>, tab: SymTab)
    requires OperandList(es, tab)
    ensures TotalOn(Members(es), SortOrder)
  {
    forall a, b | a in Members(es) && b in Members(es) ensures SortOrder(a, b) <= 0 || SortOrder(b, a) <= 0 {
      if UniqueSym(a).Some? && UniqueSym(b).Some? {
        StrCmpAntisymmetric(UniqueSym(a).value.name, UniqueSym(b).value.name);
      }
    }
    forall a, b, c | a in Members(es) && b in Members(es) && c in Members(es) && SortOrder(a, b) <= 0
      && SortOrder(b, c) <= 0
      ensures SortOrder(a, c) <= 0
    {
      if UniqueSym(a).Some? && UniqueSym(b).Some? && UniqueSym(c).Some? {
        StrCmpTransitive(UniqueSym(a).value.name, UniqueSym(b).value.name, UniqueSym(c).value.name);
      }
    }
  }

  /** The sorted and crushed operands. */
  predicate SortedOperands(cs: seq<Expr>, tab: SymTab) {
    (forall c :: c in cs ==> SortedOperand(c, tab)) && OneEach(cs)
  }

  /** expr_sort() always returns an expression: false, one operand, or an AND
    * in which no symbol has two clauses. */
  lemma ExprSortForm(es: seq<Expr>, tab: SymTab)
    requires OperandList(es, tab) && es != []
    ensures var r := CrushRuns(Sort(es, SortOrder), tab);
            r.Some? ==> r.value != [] && SortedOperands(r.value, tab)
  {
    var sorted := Sort(es, SortOrder);
    SortOrderTotal(es, tab);
    SortSorted(es, SortOrder, Members(es));
    CrushRunsForm(sorted, tab);
    CrushRunsOneEach(sorted, tab);
  }

  // ----- the first pass of expr_normalize_and()

  /** Merges adjacent comparisons on the same symbol. */
  function MergeAdjacent(cs: seq<Expr>): (r: Option<seq<Expr>>)
    requires forall c :: c in cs && c.Cmp? ==> (c.sym.width > 0 <==> c.cst.Num?)
    ensures r.Some? && cs != [] ==> r.value != []
    decreases |cs|
  {
    if |cs| < 2 then Some(cs)
    else
      var a, b := cs[0], cs[1];
      assert a in cs && b in cs;
      if a.Cmp? && b.Cmp? && a.sym == b.sym then
        if a.sym.width > 0 then
          match Intersect(a.cst, b.cst)
          case None => None
          case Some(c) =>
            var merged := [Cmp(b.sym, b.relop, c)] + cs[2..];
            MergeAdjacent(merged)
        else if a.cst.name == b.cst.name then MergeAdjacent(cs[1..])
        else None
      else
        match MergeAdjacent(cs[1..])
        case None => None
        case Some(rest) => Some([a] + rest)
  }

  /** After expr_sort() there is nothing left to merge. */
  lemma {:induction false} NothingToMerge(cs: seq<Expr>)
    requires forall c :: c in cs && c.Cmp? ==> (c.sym.width > 0 <==> c.cst.Num?)
    requires OneEach(cs)
    ensures MergeAdjacent(cs) == Some(cs)
    decreases |cs|
  {
    if |cs| >= 2 {
      assert cs == [cs[0]] + cs[1..];
      assert UniqueSym(cs[0]).Some? ==> UniqueSym(cs[0]) != UniqueSym(cs[1]);
      forall i, j | 0 <= i < j < |cs[1..]| && UniqueSym(cs[1..][i]).Some?
        ensures UniqueSym(cs[1..][i]) != UniqueSym(cs[1..][j]) {
        assert cs[1..][i] == cs[i + 1] && cs[1..][j] == cs[j + 1];
      }
      NothingToMerge(cs[1..]);
    }
  }

  // ----- the measure that normalisation decreases

  function Size(e: Expr): (r: nat)
    ensures r >= 1
    decreases e, 1
  {
    if e.AndOr? then 1 + SizeSum(e.subs) else 1
  }

  function SizeSum(es: seq<Expr>): (r: nat)
    decreases es, 0
  {
    if es == [] then 0 else Size(es[0]) + SizeSum(es[1..])
  }

  /** Total size of the operands that are over more than one symbol. */
  function Mixed(es: seq<Expr>): (r: nat)
  {
    if es == [] then 0 else (if UniqueSym(es[0]).None? then Size(es[0]) else 0) + Mixed(es[1..])
  }

  predicate HeldOr(e: Expr, sym: Symbol) {
    e.AndOr? && e.op == Or && UniqueSym(e) == Some(sym) && sym.mustCrossproduct
  }

  /** The must-crossproduct symbols that are still held as disjunctions. */
  function Held(es: seq<Expr>): (r: set<Symbol>)
    ensures forall sym :: sym in r <==> exists e :: e in es && HeldOr(e, sym)
  {
    if es == [] then {}
    else
      assert es == [es[0]] + es[1..];
      var sym := UniqueSym(es[0]);
      (if sym.Some? && HeldOr(es[0], sym.value) then {sym.value} else {}) + Held(es[1..])
  }

  lemma {:induction false} MixedConcat(a: seq<Expr>, b: seq<Expr>)
    ensures Mixed(a + b) == Mixed(a) + Mixed(b)
  {
    if a == [] {
      assert a + b == b;
    } else {
      assert (a + b)[1..] == a[1..] + b;
      MixedConcat(a[1..], b);
    }
  }

  lemma {:induction false} MixedAtMostSize(es: seq<Expr>)
    ensures Mixed(es) <= SizeSum(es)
  {
    if es != [] {
      MixedAtMostSize(es[1..]);
    }
  }

  lemma {:induction false} SizeMember(es: seq<Expr>, e: Expr)
    requires e in es
    ensures Size(e) <= SizeSum(es)
  {
    if e != es[0] {
      assert e in es[1..] by { assert es == [es[0]] + es[1..]; }
      SizeMember(es[1..], e);
    }
  }

  lemma {:induction false} MixedInsert(x: Expr, es: seq<Expr>)
    ensures Mixed(Insert(x, es, SortOrder)) == Mixed([x] + es)
  {
    assert ([x] + es)[1..] == es;
    if es != [] && SortOrder(x, es[0]) > 0 {
      MixedInsert(x, es[1..]);
      assert ([x] + es[1..])[1..] == es[1..];
      assert ([es[0]] + Insert(x, es[1..], SortOrder))[1..] == Insert(x, es[1..], SortOrder);
    }
  }

  lemma {:induction false} MixedSort(es: seq<Expr>)
    ensures Mixed(Sort(es, SortOrder)) == Mixed(es)
  {
    if es != [] {
      MixedSort(es[1..]);
      MixedInsert(es[0], Sort(es[1..], SortOrder));
      assert ([es[0]] + Sort(es[1..], SortOrder))[1..] == Sort(es[1..], SortOrder);
    }
  }

  lemma {:induction false} MixedUnique(es: seq<Expr>)
    requires forall e :: e in es ==> UniqueSym(e).Some?
    ensures Mixed(es) == 0
  {
    if es != [] {
      assert es[0] in es;
      MixedUnique(es[1..]);
    }
  }

  lemma {:induction false} MixedCrushRuns(es: seq<Expr>, tab: SymTab)
    requires OperandList(es, tab)
    ensures var r := CrushRuns(es, tab); r.Some? ==> Mixed(r.value) == Mixed(es)
    decreases |es|
  {
    if es != [] {
      assert es[0] in es;
      match UniqueSym(es[0])
      case Some(sym) =>
        var n := RunLength(es, sym);
        assert es == es[..n] + es[n..];
        RunOnSym(es[..n], sym, tab);
        var crushed := Crush(Junction(And, es[..n]), sym, tab);
        var rest := CrushRuns(es[n..], tab);
        if crushed != Bool(false) && rest.Some? {
          ClauseUnique(crushed, sym, tab);
          MixedCrushRuns(es[n..], tab);
          MixedUnique(es[..n]);
          MixedConcat(es[..n], es[n..]);
          assert ([crushed] + rest.value)[1..] == rest.value;
        }
      case None =>
        assert es == es[..1] + es[1..];
        MixedCrushRuns(es[1..], tab);
        var rest := CrushRuns(es[1..], tab);
        if rest.Some? {
          assert ([es[0]] + rest.value)[1..] == rest.value;
        }
    }
  }

  /** Without a disjunction among its operands, an AND over one symbol does not
    * become a disjunction. */
  lemma CrushNoOr(e: Expr, sym: Symbol, tab: SymTab)
    requires OnSym(e, sym, tab)
    requires e.Cmp? || (e.AndOr? && e.op == And && CountOrs(e.subs) == 0)
    ensures !Crush(e, sym, tab).AndOr?
  {
    if e.AndOr? {
      OnSymInTab(e, sym, tab);
      var items := CrushAll(e.subs, sym, tab);
      assert CountOrs(items) == 0;
      if sym.width == 0 {
        CountNoOrs(items, sym, tab);
        assert items[0] in items;
        if Bool(false) !in items {
          assert items[0] in Keep(items, true);
        }
      } else {
        GatherReady(items, sym, tab);
      }
    }
  }

  lemma {:induction false} CountNoOrs(items: seq<Expr>, sym: Symbol, tab: SymTab)
    requires Items(items, sym, tab) && CountOrs(items) == 0
    ensures forall x :: x in items ==> !x.AndOr?
  {
    if items != [] {
      assert items[0] in items && items == [items[0]] + items[1..];
      CountNoOrs(items[1..], sym, tab);
    }
  }

  lemma {:induction false} CountSomeOr(es: seq<Expr>) returns (e: Expr)
    requires CountOrs(es) > 0
    ensures e in es && e.AndOr? && e.op == Or
  {
    if es[0].AndOr? && es[0].op == Or {
      e := es[0];
    } else {
      e := CountSomeOr(es[1..]);
    }
  }

  /** A clause that is a disjunction comes from a run that has one. */
  lemma RunHeld(es: seq<Expr>, sym: Symbol, tab: SymTab) returns (e: Expr)
    requires es != [] && OperandList(es, tab) && forall e :: e in es ==> UniqueSym(e) == Some(sym)
    requires OnSym(Junction(And, es), sym, tab) && Crush(Junction(And, es), sym, tab).AndOr?
    ensures e in es && e.AndOr? && e.op == Or
  {
    assert es[0] in es;
    var j := Junction(And, es);
    if |es| == 1 {
      e := es[0];
    } else {
      if CountOrs(es) == 0 {
        CrushNoOr(j, sym, tab);
      }
      e := CountSomeOr(es);
    }
  }

  lemma {:induction false} HeldCrushRuns(es: seq<Expr>, tab: SymTab)
    requires OperandList(es, tab)
    ensures var r := CrushRuns(es, tab); r.Some? ==> Held(r.value) <= Held(es)
    decreases |es|
  {
    if es != [] {
      assert es[0] in es;
      match UniqueSym(es[0])
      case Some(sym) =>
        var n := RunLength(es, sym);
        assert es == es[..n] + es[n..];
        RunOnSym(es[..n], sym, tab);
        var crushed := Crush(Junction(And, es[..n]), sym, tab);
        var rest := CrushRuns(es[n..], tab);
        if crushed != Bool(false) && rest.Some? {
          ClauseUnique(crushed, sym, tab);
          HeldCrushRuns(es[n..], tab);
          if HeldOr(crushed, sym) {
            var e := RunHeld(es[..n], sym, tab);
            assert e in es && HeldOr(e, sym);
          }
          HeldCons(crushed, rest.value);
          HeldSuffix(es, n);
        }
      case None =>
        assert es == es[..1] + es[1..];
        HeldCrushRuns(es[1..], tab);
        var rest := CrushRuns(es[1..], tab);
        if rest.Some? {
          HeldCons(es[0], rest.value);
          HeldSuffix(es, 1);
        }
    }
  }

  lemma HeldCons(e: Expr, es: seq<Expr>)
    ensures forall sym :: sym in Held([e] + es) ==> HeldOr(e, sym) || sym in Held(es)
  {
    forall sym | sym in Held([e] + es) ensures HeldOr(e, sym) || sym in Held(es) {
      var x :| x in [e] + es && HeldOr(x, sym);
    }
  }

  lemma HeldSuffix(es: seq<Expr>, n: nat)
    requires n <= |es|
    ensures Held(es[n..]) <= Held(es)
  {
    forall sym | sym in Held(es[n..]) ensures sym in Held(es) {
      var x :| x in es[n..] && HeldOr(x, sym);
      assert x in es;
    }
  }

  // ----- multiplying out

  /** The first operand that has to be multiplied out: a disjunction over
    * several symbols or over a must-crossproduct symbol. */
  predicate MustExpand(e: Expr) {
    e.AndOr? && e.op == Or && (UniqueSym(e).None? || UniqueSym(e).value.mustCrossproduct)
  }

  function ExpandIndex(cs: seq<Expr>): (r: nat)
    ensures r <= |cs|
    ensures r < |cs| ==> MustExpand(cs[r])
    ensures forall c :: c in cs[..r] ==> !MustExpand(c)
  {
    if cs == [] || MustExpand(cs[0]) then 0
    else
      var n := ExpandIndex(cs[1..]);
      assert cs[..n + 1] == [cs[0]] + cs[1..][..n];
      1 + n
  }

  /** One AND for each disjunct in 'ks', between 'pre' and 'post'. */
  function Expand(pre: seq<Expr>, ks: seq<Expr>, post: seq<Expr>): (r: seq<Expr>)
    ensures forall x :: x in r ==> exists k :: k in ks && x == AndOr(And, pre + Splice(And, k) + post)
  {
    if ks == [] then []
    else
      assert ks == [ks[0]] + ks[1..];
      [AndOr(And, pre + Splice(And, ks[0]) + post)] + Expand(pre, ks[1..], post)
  }

  lemma {:induction false} ExpandMeaning(pre: seq<Expr>, ks: seq<Expr>, post: seq<Expr>, env: Env)
    ensures EvalSeq(Or, Expand(pre, ks, post), env)
            <==> EvalSeq(And, pre, env) && EvalSeq(Or, ks, env) && EvalSeq(And, post, env)
  {
    if ks != [] {
      assert ks == [ks[0]] + ks[1..];
      var k := Splice(And, ks[0]);
      var first := AndOr(And, pre + k + post);
      ExpandMeaning(pre, ks[1..], post, env);
      EvalCons(Or, ks[0], ks[1..], env);
      EvalCons(Or, first, Expand(pre, ks[1..], post), env);
      EvalConcat(And, pre + k, post, env);
      EvalConcat(And, pre, k, env);
      EvalSplice(And, ks[0], env);
      EvalAndOr(And, pre + k + post, env);
    }
  }

  function ExpandAt(cs: seq<Expr>, i: nat): (r: seq<Expr>)
    requires i < |cs| && cs[i].AndOr?
  {
    Expand(cs[..i], cs[i].subs, cs[i + 1..])
  }

  lemma ExpandAtMeaning(cs: seq<Expr>, i: nat, env: Env)
    requires i < |cs| && MustExpand(cs[i])
    ensures EvalSeq(Or, ExpandAt(cs, i), env) == EvalSeq(And, cs, env)
  {
    ExpandMeaning(cs[..i], cs[i].subs, cs[i + 1..], env);
    EvalAndOr(Or, cs[i].subs, env);
    EvalSplit(And, cs, i, env);
    assert cs[i..] == [cs[i]] + cs[i + 1..];
    EvalCons(And, cs[i], cs[i + 1..], env);
  }

  /** What expr_normalize_or() is given: comparisons and ANDs of operands. */
  predicate OrOperand(e: Expr, tab: SymTab) {
    || EqCmp(e, tab)
    || (e.AndOr? && e.op == And && |e.subs| >= 2 && forall x :: x in e.subs ==> Operand(x, tab))
  }

  function MixedOf(e: Expr): (r: nat) {
    if e.AndOr? then Mixed(e.subs) else 0
  }

  function HeldOf(e: Expr): (r: nat) {
    if e.AndOr? then |Held(e.subs)| else 0
  }

  lemma SpliceOperands(k: Expr, tab: SymTab)
    requires Core(k, tab)
    ensures Splice(And, k) != [] && forall x :: x in Splice(And, k) ==> Operand(x, tab)
  {
  }

  /** Replacing an operand over several symbols by one of its disjuncts makes
    * the mixed operands smaller. */
  lemma ExpandMixed(cs: seq<Expr>, i: nat, k: Expr, tab: SymTab)
    requires i < |cs| && MustExpand(cs[i]) && UniqueSym(cs[i]).None? && Core(cs[i], tab) && k in cs[i].subs
    ensures Mixed(cs[..i] + Splice(And, k) + cs[i + 1..]) < Mixed(cs)
  {
    MixedConcat(cs[..i] + Splice(And, k), cs[i + 1..]);
    MixedConcat(cs[..i], Splice(And, k));
    assert cs == cs[..i] + cs[i..];
    MixedConcat(cs[..i], cs[i..]);
    assert cs[i..][1..] == cs[i + 1..];
    SizeMember(cs[i].subs, k);
    if k.AndOr? {
      MixedAtMostSize(k.subs);
    } else {
      assert [k][1..] == [];
    }
  }

  lemma MixedReplace(cs: seq<Expr>, i: nat, k: Expr)
    requires i < |cs| && UniqueSym(cs[i]).Some? && k.Cmp?
    ensures Mixed(cs[..i] + [k] + cs[i + 1..]) == Mixed(cs)
  {
    MixedConcat(cs[..i] + [k], cs[i + 1..]);
    MixedConcat(cs[..i], [k]);
    assert cs == cs[..i] + cs[i..];
    MixedConcat(cs[..i], cs[i..]);
    assert cs[i..][1..] == cs[i + 1..];
    assert [k][1..] == [];
  }

  lemma SymbolsApart(cs: seq<Expr>, i: nat, j: nat)
    requires OneEach(cs) && i < |cs| && j < |cs| && i != j && UniqueSym(cs[i]).Some?
    ensures UniqueSym(cs[i]) != UniqueSym(cs[j])
  {
  }

  lemma HeldReplace(cs: seq<Expr>, i: nat, k: Expr, sym: Symbol)
    requires OneEach(cs) && i < |cs| && UniqueSym(cs[i]) == Some(sym) && k.Cmp?
    ensures Held(cs[..i] + [k] + cs[i + 1..]) <= Held(cs) - {sym}
  {
    var es := cs[..i] + [k] + cs[i + 1..];
    forall s | s in Held(es) ensures s in Held(cs) && s != sym {
      var x :| x in es && HeldOr(x, s);
      assert x in cs[..i] || x in cs[i + 1..];
      var j :| 0 <= j < |cs| && j != i && cs[j] == x;
      SymbolsApart(cs, i, j);
    }
  }

  /** Replacing a held disjunction by one of its comparisons releases its
    * symbol. */
  lemma ExpandHeld(cs: seq<Expr>, i: nat, k: Expr, tab: SymTab)
    requires SortedOperands(cs, tab) && i < |cs| && MustExpand(cs[i]) && UniqueSym(cs[i]).Some? && k in cs[i].subs
    ensures var es := cs[..i] + Splice(And, k) + cs[i + 1..];
            Mixed(es) == Mixed(cs) && |Held(es)| < |Held(cs)|
  {
    assert cs[i] in cs;
    var sym := UniqueSym(cs[i]).value;
    assert CmpOn(k, sym, tab);
    MixedReplace(cs, i, k);
    HeldReplace(cs, i, k, sym);
    assert HeldOr(cs[i], sym) && sym in Held(cs);
    ProperSubsetCardinality(Held(cs[..i] + [k] + cs[i + 1..]), Held(cs));
  }

  // ----- expr_normalize()

  function MaxMixed(es: seq<Expr>): (r: nat)
  {
    if es == [] then 0 else Max(MixedOf(es[0]), MaxMixed(es[1..]))
  }

  /** Most symbols held, among the operands whose mixed size is at least 'm'. */
  function MaxHeld(es: seq<Expr>, m: nat): (r: nat)
  {
    if es == [] then 0
    else if MixedOf(es[0]) >= m then Max(HeldOf(es[0]), MaxHeld(es[1..], m))
    else MaxHeld(es[1..], m)
  }

  /** The operands 'es' are below 'm' and 'h' in lexicographic order. */
  ghost predicate Below(es: seq<Expr>, m: nat, h: nat) {
    forall e :: e in es ==> MixedOf(e) < m || (MixedOf(e) == m && HeldOf(e) < h)
  }

  lemma {:induction false} MaxMixedBound(es: seq<Expr>, m: nat)
    requires forall e :: e in es ==> MixedOf(e) <= m
    ensures MaxMixed(es) <= m
  {
    if es != [] {
      assert es[0] in es;
      MaxMixedBound(es[1..], m);
    }
  }

  lemma {:induction false} MaxHeldBound(es: seq<Expr>, m: nat, h: nat)
    requires h > 0 && forall e :: e in es ==> (MixedOf(e) >= m ==> HeldOf(e) < h)
    ensures MaxHeld(es, m) < h
  {
    if es != [] {
      assert es[0] in es;
      MaxHeldBound(es[1..], m, h);
    }
  }

  lemma BelowMax(es: seq<Expr>, m: nat, h: nat)
    requires es != [] && Below(es, m, h)
    ensures MaxMixed(es) < m || (MaxMixed(es) == m && MaxHeld(es, m) < h)
  {
    MaxMixedBound(es, m);
    if MaxMixed(es) == m {
      if forall e :: e in es ==> MixedOf(e) < m {
        assert es[0] in es;
        if m > 0 { MaxMixedBound(es, m - 1); }
      } else {
        var e :| e in es && MixedOf(e) >= m;
        assert h > 0;
        MaxHeldBound(es, m, h);
      }
    }
  }

  /** Multiplying out gives smaller conjunctions, well formed again. */
  lemma ExpandBelow(cs: seq<Expr>, i: nat, tab: SymTab)
    requires SortedOperands(cs, tab) && |cs| >= 2 && i < |cs| && MustExpand(cs[i])
    ensures var es := ExpandAt(cs, i);
            && es != []
            && (forall e :: e in es ==> OrOperand(e, tab))
            && Below(es, Mixed(cs), |Held(cs)|)
  {
    var es := ExpandAt(cs, i);
    assert cs[i] in cs;
    forall e | e in es
      ensures OrOperand(e, tab) && (MixedOf(e) < Mixed(cs) || (MixedOf(e) == Mixed(cs) && HeldOf(e) < |Held(cs)|))
    {
      var k :| k in cs[i].subs && e == AndOr(And, cs[..i] + Splice(And, k) + cs[i + 1..]);
      SpliceOperands(k, tab);
      assert forall x :: x in e.subs ==> x in cs || x in Splice(And, k);
      if UniqueSym(cs[i]).None? {
        ExpandMixed(cs, i, k, tab);
      } else {
        ExpandHeld(cs, i, k, tab);
      }
    }
  }

  /** Everything 'NormalizeAnd' needs to know about its sorted operands. */
  lemma SortReady(es: seq<Expr>, tab: SymTab)
    requires OperandList(es, tab) && |es| >= 2
    ensures var s := ExprSort(es, tab);
            && (s == Bool(false) || (s.AndOr? && s.op == And) || SortedOperand(s, tab))
            && (s.AndOr? && s.op == And ==>
                  && |s.subs| >= 2 && SortedOperands(s.subs, tab)
                  && (forall c :: c in s.subs && c.Cmp? ==> (c.sym.width > 0 <==> c.cst.Num?))
                  && MergeAdjacent(s.subs) == Some(s.subs)
                  && Mixed(s.subs) == Mixed(es) && |Held(s.subs)| <= |Held(es)|)
  {
    var sorted := Sort(es, SortOrder);
    ExprSortForm(es, tab);
    var r := CrushRuns(sorted, tab);
    if r.Some? {
      if |r.value| == 1 {
        assert r.value[0] in r.value;
      } else {
        NothingToMerge(r.value);
        MixedSort(es);
        MixedCrushRuns(sorted, tab);
        HeldCrushRuns(sorted, tab);
        assert Held(sorted) == Held(es);
        SubsetCardinality(Held(r.value), Held(es));
      }
    }
  }

  function NormalizeAnd(es: seq<Expr>, ghost tab: SymTab): (r: Expr)
    requires OperandList(es, tab) && |es| >= 2
    decreases Mixed(es), |Held(es)|, 0, 0
  {
    SortReady(es, tab);
    var s := ExprSort(es, tab);
    if !(s.AndOr? && s.op == And) then s
    else
      match MergeAdjacent(s.subs)
      case None => Bool(false)
      case Some(cs) =>
        if |cs| == 1 then cs[0]
        else
          var i := ExpandIndex(cs);
          if i == |cs| then AndOr(And, cs)
          else
            ExpandFirst(cs, tab);
            NormalizeOr(ExpandAt(cs, i), tab)
  }

  function NormalizeOr(es: seq<Expr>, ghost tab: SymTab): (r: Expr)
    requires forall e :: e in es ==> OrOperand(e, tab)
    decreases MaxMixed(es), MaxHeld(es, MaxMixed(es)), 2, |es|
  {
    Fix(Or, NormalizeEach(es, tab))
  }

  /** One disjunct, and the rest of them, are no greater than all together. */
  lemma EachSmaller(es: seq<Expr>)
    requires es != []
    ensures var m := MaxMixed(es);
            && (MixedOf(es[0]) < m || (MixedOf(es[0]) == m && HeldOf(es[0]) <= MaxHeld(es, m)))
            && (MaxMixed(es[1..]) < m || (MaxMixed(es[1..]) == m && MaxHeld(es[1..], m) <= MaxHeld(es, m)))
  {
  }

  function NormalizeEach(es: seq<Expr>, ghost tab: SymTab): (r: seq<Expr>)
    requires forall e :: e in es ==> OrOperand(e, tab)
    decreases MaxMixed(es), MaxHeld(es, MaxMixed(es)), 1, |es|
  {
    if es == [] then []
    else
      assert OrOperand(es[0], tab) && es == [es[0]] + es[1..];
      EachSmaller(es);
      (if es[0].AndOr? then Splice(Or, NormalizeAnd(es[0].subs, tab)) else [es[0]])
      + NormalizeEach(es[1..], tab)
  }

  function Normalize(e: Expr, ghost tab: SymTab): (r: Expr)
    requires Simplified(e, tab)
  {
    match e
    case AndOr(And, subs) => NormalizeAnd(subs, tab)
    case AndOr(Or, subs) =>
      OrOperands(e, tab);
      NormalizeOr(subs, tab)
    case _ => e
  }

  lemma OrOperands(e: Expr, tab: SymTab)
    requires Core(e, tab) && e.AndOr? && e.op == Or
    ensures forall x :: x in e.subs ==> OrOperand(x, tab)
  {
    forall x | x in e.subs ensures OrOperand(x, tab) {
      assert Core(x, tab) && !(x.AndOr? && x.op == Or);
      if x.AndOr? {
        assert forall y :: y in x.subs ==> Operand(y, tab);
      }
    }
  }

  // ----- the normal form

  predicate NormalClause(c: Expr, tab: SymTab) {
    UniqueSym(c).Some? && Clause(c, UniqueSym(c).value, tab) && !MustExpand(c)
  }

  /** A conjunction of clauses over distinct symbols, in which a
    * must-crossproduct symbol is never a disjunction. */
  predicate NormalAnd(cs: seq<Expr>, tab: SymTab) {
    |cs| >= 2 && (forall c :: c in cs ==> NormalClause(c, tab)) && OneEach(cs)
  }

  predicate NormalOperand(e: Expr, tab: SymTab) {
    EqCmp(e, tab) || (e.AndOr? && e.op == And && NormalAnd(e.subs, tab))
  }

  predicate Normalized(e: Expr, tab: SymTab)
  {
    || e.Bool?
    || NormalOperand(e, tab)
    || (e.AndOr? && e.op == Or && |e.subs| >= 2 && forall x :: x in e.subs ==> NormalOperand(x, tab))
  }

  lemma SortedOperandNormal(e: Expr, tab: SymTab)
    requires SortedOperand(e, tab) && UniqueSym(e).Some?
    ensures Normalized(e, tab)
  {
  }

  /** A single operand that is left after sorting is over one symbol. */
  lemma SingleIsUnique(es: seq<Expr>, tab: SymTab)
    requires OperandList(es, tab) && |es| >= 2
    requires CrushRuns(es, tab).Some? && |CrushRuns(es, tab).value| == 1
    ensures UniqueSym(CrushRuns(es, tab).value[0]).Some?
  {
    assert es[0] in es;
    var first := UniqueSym(es[0]);
    var n := if first.Some? then RunLength(es, first.value) else 1;
    assert es == es[..n] + es[n..];
    if first.Some? {
      RunOnSym(es[..n], first.value, tab);
      ClauseUnique(Crush(Junction(And, es[..n]), first.value, tab), first.value, tab);
    } else {
      CrushRunsForm(es[1..], tab);
    }
  }

  lemma NoneToExpand(cs: seq<Expr>, tab: SymTab)
    requires SortedOperands(cs, tab) && |cs| >= 2 && ExpandIndex(cs) == |cs|
    ensures NormalAnd(cs, tab)
  {
    forall c | c in cs ensures NormalClause(c, tab) {
      assert cs[..|cs|] == cs;
      assert SortedOperand(c, tab) && !MustExpand(c);
    }
  }

  /** Multiplying out the first operand that needs it. */
  lemma ExpandFirst(cs: seq<Expr>, tab: SymTab)
    requires SortedOperands(cs, tab) && |cs| >= 2 && ExpandIndex(cs) < |cs|
    ensures var ex := ExpandAt(cs, ExpandIndex(cs));
            && (forall e :: e in ex ==> OrOperand(e, tab))
            && (MaxMixed(ex) < Mixed(cs) || (MaxMixed(ex) == Mixed(cs) && MaxHeld(ex, MaxMixed(ex)) < |Held(cs)|))
  {
    var i := ExpandIndex(cs);
    ExpandBelow(cs, i, tab);
    BelowMax(ExpandAt(cs, i), Mixed(cs), |Held(cs)|);
  }

  /** What normalising an AND does, given its sorted operands. */
  lemma NormalizeAndStep(es: seq<Expr>, tab: SymTab)
    requires OperandList(es, tab) && |es| >= 2
    ensures var s := ExprSort(es, tab);
            if s.AndOr? && s.op == And then
              var i := ExpandIndex(s.subs);
              && |s.subs| >= 2 && SortedOperands(s.subs, tab)
              && Mixed(s.subs) == Mixed(es) && |Held(s.subs)| <= |Held(es)|
              && (if i == |s.subs| then NormalizeAnd(es, tab) == s
                  else
                    var ex := ExpandAt(s.subs, i);
                    && (forall e :: e in ex ==> OrOperand(e, tab))
                    && (MaxMixed(ex) < Mixed(s.subs)
                        || (MaxMixed(ex) == Mixed(s.subs) && MaxHeld(ex, MaxMixed(ex)) < |Held(s.subs)|))
                    && NormalizeAnd(es, tab) == NormalizeOr(ex, tab))
            else NormalizeAnd(es, tab) == s
  {
    SortReady(es, tab);
    var s := ExprSort(es, tab);
    if s.AndOr? && s.op == And {
      if ExpandIndex(s.subs) < |s.subs| {
        ExpandFirst(s.subs, tab);
      }
      NormalizeAndUnfold(es, s, tab);
    }
  }

  lemma NormalizeAndUnfold(es: seq<Expr>, s: Expr, tab: SymTab)
    requires OperandList(es, tab) && |es| >= 2 && s == ExprSort(es, tab) && s.AndOr? && s.op == And && |s.subs| >= 2
    requires forall c :: c in s.subs && c.Cmp? ==> (c.sym.width > 0 <==> c.cst.Num?)
    requires MergeAdjacent(s.subs) == Some(s.subs)
    requires ExpandIndex(s.subs) < |s.subs| ==>
               forall e :: e in ExpandAt(s.subs, ExpandIndex(s.subs)) ==> OrOperand(e, tab)
    ensures NormalizeAnd(es, tab) ==
            if ExpandIndex(s.subs) == |s.subs| then s else NormalizeOr(ExpandAt(s.subs, ExpandIndex(s.subs)), tab)
  {
  }

  lemma {:induction false} NormalizeAndForm(es: seq<Expr>, tab: SymTab)
    requires OperandList(es, tab) && |es| >= 2
    ensures var r := NormalizeAnd(es, tab); Normalized(r, tab) && r != Bool(true)
    decreases Mixed(es), |Held(es)|, 0, 0
  {
    NormalizeAndStep(es, tab);
    var s := ExprSort(es, tab);
    if s.AndOr? && s.op == And {
      var i := ExpandIndex(s.subs);
      if i == |s.subs| {
        NoneToExpand(s.subs, tab);
      } else {
        NormalizeOrForm(ExpandAt(s.subs, i), tab);
      }
    } else if s != Bool(false) {
      SingleSorted(es, tab);
    }
  }

  lemma SingleSorted(es: seq<Expr>, tab: SymTab)
    requires OperandList(es, tab) && |es| >= 2
    requires var s := ExprSort(es, tab); !(s.AndOr? && s.op == And) && s != Bool(false)
    ensures var s := ExprSort(es, tab); Normalized(s, tab) && s != Bool(true)
  {
    ExprSortForm(es, tab);
    var cs := CrushRuns(Sort(es, SortOrder), tab).value;
    assert cs[0] in cs;
    SingleIsUnique(Sort(es, SortOrder), tab);
    SortedOperandNormal(cs[0], tab);
  }

  lemma {:induction false} NormalizeOrForm(es: seq<Expr>, tab: SymTab)
    requires forall e :: e in es ==> OrOperand(e, tab)
    ensures var r := NormalizeOr(es, tab); Normalized(r, tab) && r != Bool(true)
    decreases MaxMixed(es), MaxHeld(es, MaxMixed(es)), 2, |es|
  {
    NormalizeEachForm(es, tab);
    var ds := DropBools(NormalizeEach(es, tab));
    assert |ds| == 1 ==> ds[0] in ds;
  }

  lemma {:induction false} NormalizeEachForm(es: seq<Expr>, tab: SymTab)
    requires forall e :: e in es ==> OrOperand(e, tab)
    ensures forall x :: x in NormalizeEach(es, tab) ==> x == Bool(false) || NormalOperand(x, tab)
    decreases MaxMixed(es), MaxHeld(es, MaxMixed(es)), 1, |es|
  {
    if es != [] {
      assert OrOperand(es[0], tab) && es == [es[0]] + es[1..];
      NormalizeEachForm(es[1..], tab);
      if es[0].AndOr? {
        NormalizeAndForm(es[0].subs, tab);
        NormalPieces(NormalizeAnd(es[0].subs, tab), tab);
      }
    }
  }

  /** What a normalised operand contributes to the OR around it. */
  lemma NormalPieces(e: Expr, tab: SymTab)
    requires Normalized(e, tab) && e != Bool(true)
    ensures forall x :: x in Splice(Or, e) ==> x == Bool(false) || NormalOperand(x, tab)
  {
  }

  lemma {:induction false} NormalizeAndMeaning(es: seq<Expr>, env: Env, tab: SymTab)
    requires OperandList(es, tab) && |es| >= 2 && ValidEnv(env)
    ensures Eval(NormalizeAnd(es, tab), env) == EvalSeq(And, es, env)
    decreases Mixed(es), |Held(es)|, 0, 0
  {
    NormalizeAndStep(es, tab);
    ExprSortMeaning(es, env, tab);
    var s := ExprSort(es, tab);
    if s.AndOr? && s.op == And {
      var i := ExpandIndex(s.subs);
      if i < |s.subs| {
        EvalAndOr(And, s.subs, env);
        ExpandAtMeaning(s.subs, i, env);
        NormalizeOrMeaning(ExpandAt(s.subs, i), env, tab);
      }
    }
  }

  lemma {:induction false} NormalizeOrMeaning(es: seq<Expr>, env: Env, tab: SymTab)
    requires ValidEnv(env) && forall e :: e in es ==> OrOperand(e, tab)
    ensures Eval(NormalizeOr(es, tab), env) == EvalSeq(Or, es, env)
    decreases MaxMixed(es), MaxHeld(es, MaxMixed(es)), 2, |es|
  {
    NormalizeEachMeaning(es, env, tab);
    EvalFix(Or, NormalizeEach(es, tab), env);
  }

  lemma {:induction false} NormalizeEachMeaning(es: seq<Expr>, env: Env, tab: SymTab)
    requires ValidEnv(env) && forall e :: e in es ==> OrOperand(e, tab)
    ensures EvalSeq(Or, NormalizeEach(es, tab), env) == EvalSeq(Or, es, env)
    decreases MaxMixed(es), MaxHeld(es, MaxMixed(es)), 1, |es|
  {
    if es != [] {
      assert OrOperand(es[0], tab) && es == [es[0]] + es[1..];
      var rest := NormalizeEach(es[1..], tab);
      NormalizeEachMeaning(es[1..], env, tab);
      EvalCons(Or, es[0], es[1..], env);
      if es[0].AndOr? {
        var first := NormalizeAnd(es[0].subs, tab);
        NormalizeAndMeaning(es[0].subs, env, tab);
        EvalAndOr(And, es[0].subs, env);
        EvalSplice(Or, first, env);
        EvalConcat(Or, Splice(Or, first), rest, env);
      } else {
        EvalCons(Or, es[0], rest, env);
      }
    }
  }

  /** expr_normalize() keeps the meaning and reaches the normal form; it yields
    * the constant true only when given it. */
  lemma NormalizeCorrect(e: Expr, env: Env, tab: SymTab)
    requires Simplified(e, tab) && ValidEnv(env)
    ensures Normalized(Normalize(e, tab), tab)
    ensures Eval(Normalize(e, tab), env) == Eval(e, env)
    ensures Normalize(e, tab) == Bool(true) ==> e == Bool(true)
  {
    match e
    case AndOr(And, subs) =>
      NormalizeAndForm(subs, tab);
      NormalizeAndMeaning(subs, env, tab);
      EvalAndOr(And, subs, env);
    case AndOr(Or, subs) =>
      OrOperands(e, tab);
      NormalizeOrForm(subs, tab);
      NormalizeOrMeaning(subs, env, tab);
      EvalAndOr(Or, subs, env);
    case _ =>
  }
}
