/** expr_sort() and expr_normalize() in the form of lib/expr.c, with their loops. */
module NormalizeLoops {
  import opened Util
  import opened Expressions
  import opened Simplification
  import opened Sorting
  import opened Crushing
  import opened Normalization
  import SimplifyLoops
  import CrushLoops

  /** 'done' in front of what the rest comes to, if that is anything. */
  function Prepend(done: seq<Expr>, rest: Option<seq<Expr>>): (r: Option<seq<Expr>>) {
    if rest.None? then None else Some(done + rest.value)
  }

  lemma PrependMore(done: seq<Expr>, x: seq<Expr>, rest: Option<seq<Expr>>)
    ensures Prepend(done, Prepend(x, rest)) == Prepend(done + x, rest)
  {
    if rest.Some? {
      assert done + (x + rest.value) == done + x + rest.value;
    }
  }

  // ----- expr_sort()

  lemma OperandsTail(es: seq<Expr>, i: nat, tab: SymTab)
    requires OperandList(es, tab) && i <= |es|
    ensures OperandList(es[i..], tab) && OperandList(es[..i], tab)
  {
    forall e | e in es[i..] ensures Operand(e, tab) { assert e in es; }
    forall e | e in es[..i] ensures Operand(e, tab) { assert e in es; }
  }

  /** The run of operands over one symbol that starts at 'i'. */
  method FindRun(es: seq<Expr>, i: nat, sym: Symbol) returns (j: nat)
    requires i < |es| && UniqueSym(es[i]) == Some(sym)
    ensures i < j <= |es| && j - i == RunLength(es[i..], sym)
  {
    j := i + 1;
    assert es[i..][1..] == es[i + 1..];
    while j < |es| && UniqueSym(es[j]) == Some(sym)
      invariant i < j <= |es| && RunLength(es[i..], sym) == j - i + RunLength(es[j..], sym)
    {
      assert es[j..][1..] == es[j + 1..];
      j := j + 1;
    }
  }

  /** A run crushed, or an operand over several symbols as it is. */
  lemma RunNext(es: seq<Expr>, tab: SymTab)
    requires es != [] && OperandList(es, tab)
    ensures UniqueSym(es[0]).Some? ==>
              var sym := UniqueSym(es[0]).value;
              var n := RunLength(es, sym);
              && n <= |es| && OnSym(Junction(And, es[..n]), sym, tab) && OperandList(es[n..], tab)
              && var c := Crush(Junction(And, es[..n]), sym, tab);
              && (c == Bool(false) ==> CrushRuns(es, tab) == None)
              && (c != Bool(false) ==> !c.Bool? && CrushRuns(es, tab) == Prepend([c], CrushRuns(es[n..], tab)))
    ensures UniqueSym(es[0]).None? ==>
              OperandList(es[1..], tab) && CrushRuns(es, tab) == Prepend([es[0]], CrushRuns(es[1..], tab))
  {
    assert es[0] in es;
    if UniqueSym(es[0]).Some? {
      var sym := UniqueSym(es[0]).value;
      var n := RunLength(es, sym);
      OperandsTail(es, n, tab);
      RunOnSym(es[..n], sym, tab);
    } else {
      OperandsTail(es, 1, tab);
    }
  }

  lemma Subranges<T>(s: seq<T>, i: nat, j: nat)
    requires i <= j <= |s|
    ensures s[i..][..j - i] == s[i..j] && s[i..][j - i..] == s[j..]
  {
  }

  lemma PrependNothing(done: seq<Expr>, rest: Option<seq<Expr>>)
    ensures Prepend([], rest) == rest && Prepend(done, Some([])) == Some(done)
  {
    if rest.Some? {
      assert [] + rest.value == rest.value;
    }
    assert done + [] == done;
  }

  /** The operands from 'i' on after a run, or after an operand by itself. */
  lemma SortStep(sorted: seq<Expr>, i: nat, j: nat, x: Expr, done: seq<Expr>, tab: SymTab)
    requires i < j <= |sorted| && OperandList(sorted[i..], tab) && OperandList(sorted[j..], tab)
    requires CrushRuns(sorted[i..], tab) == Prepend([x], CrushRuns(sorted[j..], tab))
    ensures Prepend(done, CrushRuns(sorted[i..], tab)) == Prepend(done + [x], CrushRuns(sorted[j..], tab))
  {
    PrependMore(done, [x], CrushRuns(sorted[j..], tab));
  }

  /** RunNext() for the operands from 'i' on. */
  lemma RunNextAt(sorted: seq<Expr>, i: nat, j: nat, sym: Symbol, tab: SymTab)
    requires i < j <= |sorted| && OperandList(sorted[i..], tab)
    requires UniqueSym(sorted[i]) == Some(sym) && j - i == RunLength(sorted[i..], sym)
    ensures OnSym(Junction(And, sorted[i..j]), sym, tab) && OperandList(sorted[j..], tab)
    ensures var c := Crush(Junction(And, sorted[i..j]), sym, tab);
            && (c == Bool(false) ==> CrushRuns(sorted[i..], tab) == None)
            && (c != Bool(false) ==>
                  !c.Bool? && CrushRuns(sorted[i..], tab) == Prepend([c], CrushRuns(sorted[j..], tab)))
  {
    assert sorted[i..][0] == sorted[i];
    RunNext(sorted[i..], tab);
    Subranges(sorted, i, j);
  }

  lemma SingleNextAt(sorted: seq<Expr>, i: nat, tab: SymTab)
    requires i < |sorted| && OperandList(sorted[i..], tab) && UniqueSym(sorted[i]).None?
    ensures OperandList(sorted[i + 1..], tab)
    ensures CrushRuns(sorted[i..], tab) == Prepend([sorted[i]], CrushRuns(sorted[i + 1..], tab))
  {
    assert sorted[i..][0] == sorted[i];
    RunNext(sorted[i..], tab);
    Subranges(sorted, i, i + 1);
  }

  /** expr_sort() */
  method SortExpr(es: seq<Expr>, ghost tab: SymTab) returns (r: Expr)
    requires OperandList(es, tab)
    ensures r == ExprSort(es, tab)
  {
    var sorted := Sort(es, SortOrder);
    ghost var all := CrushRuns(sorted, tab);
    var done: seq<Expr> := [];
    var i := 0;
    assert sorted[0..] == sorted;
    PrependNothing([], all);
    while i < |sorted|
      invariant i <= |sorted| && OperandList(sorted[i..], tab)
      invariant all == Prepend(done, CrushRuns(sorted[i..], tab))
    {
      var sym := UniqueSym(sorted[i]);
      if sym.Some? {
        var j := FindRun(sorted, i, sym.value);
        RunNextAt(sorted, i, j, sym.value, tab);
        var c := CrushLoops.CrushExpr(Junction(And, sorted[i..j]), sym.value, tab);
        if c == Bool(false) {
          return Bool(false);
        }
        SortStep(sorted, i, j, c, done, tab);
        done := done + [c];
        i := j;
      } else {
        SingleNextAt(sorted, i, tab);
        SortStep(sorted, i, i + 1, sorted[i], done, tab);
        done := done + [sorted[i]];
        i := i + 1;
      }
    }
    assert sorted[i..] == [];
    PrependNothing(done, None);
    r := Junction(And, done);
  }

  // ----- expr_normalize_and()

  ghost predicate Typed(cs: seq<Expr>) {
    forall c :: c in cs && c.Cmp? ==> (c.sym.width > 0 <==> c.cst.Num?)
  }

  lemma MergeNext(cs: seq<Expr>)
    requires Typed(cs) && |cs| >= 2
    ensures var a, b := cs[0], cs[1];
            if a.Cmp? && b.Cmp? && a.sym == b.sym then
              if a.sym.width > 0 then
                && a.cst.Num? && b.cst.Num?
                && var c := Intersect(a.cst, b.cst);
                if c.None? then MergeAdjacent(cs) == None
                else
                  Typed([Cmp(b.sym, b.relop, c.value)] + cs[2..]) &&
                  MergeAdjacent(cs) == MergeAdjacent([Cmp(b.sym, b.relop, c.value)] + cs[2..])
              else
                && a.cst.Str? && b.cst.Str? && Typed(cs[1..])
                && MergeAdjacent(cs) == if a.cst.name == b.cst.name then MergeAdjacent(cs[1..]) else None
            else Typed(cs[1..]) && MergeAdjacent(cs) == Prepend([a], MergeAdjacent(cs[1..]))
  {
    assert cs[0] in cs && cs[1] in cs;
    forall c | c in cs[1..] ensures c in cs { }
    forall c | c in cs[2..] ensures c in cs { }
  }

  /** The first walk: adjacent comparisons on the same symbol are merged. */
  method Merge(cs: seq<Expr>) returns (r: Option<seq<Expr>>)
    requires Typed(cs)
    ensures r == MergeAdjacent(cs)
  {
    var done: seq<Expr>, rest := [], cs;
    ghost var all := MergeAdjacent(cs);
    assert all.Some? ==> [] + all.value == all.value;
    while |rest| >= 2
      invariant Typed(rest) && all == Prepend(done, MergeAdjacent(rest))
      decreases |rest|
    {
      MergeNext(rest);
      var a, b := rest[0], rest[1];
      if a.Cmp? && b.Cmp? && a.sym == b.sym {
        if a.sym.width > 0 {
          var c := Intersect(a.cst, b.cst);
          if c.None? {
            return None;
          }
          rest := [Cmp(b.sym, b.relop, c.value)] + rest[2..];
        } else if a.cst.name == b.cst.name {
          rest := rest[1..];
        } else {
          return None;
        }
      } else {
        PrependMore(done, [a], MergeAdjacent(rest[1..]));
        done := done + [a];
        rest := rest[1..];
      }
    }
    r := Some(done + rest);
  }

  lemma ExpandNext(pre: seq<Expr>, ks: seq<Expr>, post: seq<Expr>, i: nat, done: seq<Expr>, all: seq<Expr>)
    requires i < |ks| && done + Expand(pre, ks[i..], post) == all
    ensures done + [AndOr(And, pre + Splice(And, ks[i]) + post)] + Expand(pre, ks[i + 1..], post) == all
  {
    assert ks[i..][0] == ks[i] && ks[i..][1..] == ks[i + 1..];
  }

  /** The second walk, from operand 'i', which has to be multiplied out. */
  method Distribute(cs: seq<Expr>, i: nat) returns (r: seq<Expr>)
    requires i < |cs| && cs[i].AndOr?
    ensures r == ExpandAt(cs, i)
  {
    var ks := cs[i].subs;
    r := [];
    ghost var all := ExpandAt(cs, i);
    assert ks[0..] == ks;
    for k := 0 to |ks|
      invariant r + Expand(cs[..i], ks[k..], cs[i + 1..]) == all
    {
      ExpandNext(cs[..i], ks, cs[i + 1..], k, r, all);
      r := r + [AndOr(And, cs[..i] + Splice(And, ks[k]) + cs[i + 1..])];
    }
  }

  method FindExpand(cs: seq<Expr>) returns (i: nat)
    ensures i == ExpandIndex(cs)
  {
    i := 0;
    assert cs[0..] == cs;
    while i < |cs| && !MustExpand(cs[i])
      invariant i <= |cs| && ExpandIndex(cs) == i + ExpandIndex(cs[i..])
    {
      assert cs[i..][1..] == cs[i + 1..];
      i := i + 1;
    }
  }

  ghost predicate OrOperandList(es: seq<Expr>, tab: SymTab) {
    forall e :: e in es ==> OrOperand(e, tab)
  }

  /** expr_normalize_and() */
  method NormalizeConjunction(es: seq<Expr>, ghost tab: SymTab) returns (r: Expr)
    requires OperandList(es, tab) && |es| >= 2
    ensures r == NormalizeAnd(es, tab)
    decreases Mixed(es), |Held(es)|, 0
  {
    SortReady(es, tab);
    NormalizeAndStep(es, tab);
    r := SortExpr(es, tab);
    if !(r.AndOr? && r.op == And) {
      return;
    }
    var merged := Merge(r.subs);
    var cs := merged.value;
    var i := FindExpand(cs);
    if i == |cs| {
      return;
    }
    var ors := Distribute(cs, i);
    r := NormalizeDisjunction(ors, tab);
  }

  lemma OrTail(es: seq<Expr>, i: nat, tab: SymTab)
    requires OrOperandList(es, tab) && i <= |es|
    ensures OrOperandList(es[i..], tab)
  {
    forall e | e in es[i..] ensures OrOperand(e, tab) { assert e in es; }
  }

  lemma {:induction false} MeasureAt(es: seq<Expr>, i: nat, m: nat)
    requires i < |es| && m >= MaxMixed(es)
    ensures MixedOf(es[i]) <= MaxMixed(es) && (MixedOf(es[i]) == m ==> HeldOf(es[i]) <= MaxHeld(es, m))
  {
    if i > 0 {
      MeasureAt(es[1..], i - 1, m);
    }
  }

  lemma EachNext(es: seq<Expr>, i: nat, tab: SymTab, done: seq<Expr>, all: seq<Expr>)
    requires i < |es| && OrOperandList(es[i..], tab) && OrOperandList(es[i + 1..], tab)
    requires es[i].AndOr? ==> OperandList(es[i].subs, tab) && |es[i].subs| >= 2
    requires done + NormalizeEach(es[i..], tab) == all
    ensures (done + if es[i].AndOr? then Splice(Or, NormalizeAnd(es[i].subs, tab)) else [es[i]])
            + NormalizeEach(es[i + 1..], tab) == all
  {
    assert es[i..][0] == es[i] && es[i..][1..] == es[i + 1..];
  }

  /** expr_normalize_or() */
  method NormalizeDisjunction(es: seq<Expr>, ghost tab: SymTab) returns (r: Expr)
    requires OrOperandList(es, tab)
    ensures r == NormalizeOr(es, tab)
    decreases MaxMixed(es), MaxHeld(es, MaxMixed(es)), 1
  {
    var done: seq<Expr> := [];
    ghost var all := NormalizeEach(es, tab);
    assert es[0..] == es;
    for i := 0 to |es|
      invariant OrOperandList(es[i..], tab) && done + NormalizeEach(es[i..], tab) == all
    {
      assert es[i] in es;
      OrTail(es, i + 1, tab);
      EachNext(es, i, tab, done, all);
      if es[i].AndOr? {
        MeasureAt(es, i, MaxMixed(es));
        var e := NormalizeConjunction(es[i].subs, tab);
        done := done + Splice(Or, e);
      } else {
        done := done + [es[i]];
      }
    }
    assert es[|es|..] == [] && done == all;
    r := SimplifyLoops.FixAndOr(Or, done);
  }

  /** expr_normalize() */
  method NormalizeExpr(e: Expr, ghost tab: SymTab) returns (r: Expr)
    requires Simplified(e, tab)
    ensures r == Normalize(e, tab)
  {
    match e {
      case AndOr(And, subs) => r := NormalizeConjunction(subs, tab);
      case AndOr(Or, subs) =>
        OrOperands(e, tab);
        r := NormalizeDisjunction(subs, tab);
      case _ => r := e;
    }
  }
}
