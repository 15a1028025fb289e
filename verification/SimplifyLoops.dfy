/** expr_not(), expr_fix() and expr_simplify() in the form of lib/expr.c: loops
  * over the operands and over the bits of a constant. */
module SimplifyLoops {
  import opened Util
  import opened Bits
  import opened Expressions
  import opened Simplification

  /** What has been combined so far: nothing yet, or one expression. */
  predicate Combined(op: Op, es: seq<Expr>, e: Option<Expr>) {
    if es == [] then e.None? else e == Some(Junction(op, es))
  }

  /** expr_combine(), where either argument may be missing. */
  function CombineOption(op: Op, a: Option<Expr>, b: Expr): (r: Option<Expr>) {
    if a.None? then Some(b) else Some(Combine(op, a.value, b))
  }

  lemma CombinedMore(op: Op, es: seq<Expr>, e: Option<Expr>, x: Expr)
    requires Combined(op, es, e) && x.Cmp? && (es != [] ==> es[0].Cmp?)
    ensures Combined(op, es + [x], CombineOption(op, e, x))
  {
    if |es| == 1 {
      assert es == [es[0]];
      assert Splice(op, es[0]) + Splice(op, x) == es + [x];
    }
  }

  /** The bit tests from bit 'i' on, which is the next one to test. */
  function BitTestsFrom(sym: Symbol, cst: Constant, i: nat): (r: seq<Expr>)
    requires cst.Num? && i <= sym.width
  {
    if i == sym.width then [] else [BitTest(sym, i, i !in cst.value)] + NeTests(sym, cst.value, cst.mask, i + 1)
  }

  lemma BitTestsFound(sym: Symbol, cst: Constant, from: nat)
    requires cst.Num? && from <= sym.width
    ensures NeTests(sym, cst.value, cst.mask, from) == BitTestsFrom(sym, cst, Scan(cst.mask, true, from, sym.width))
  {
  }

  lemma BitTestNext(sym: Symbol, cst: Constant, i: nat, es: seq<Expr>, all: seq<Expr>)
    requires cst.Num? && i < sym.width && all == es + BitTestsFrom(sym, cst, i)
    ensures all ==
              es + [BitTest(sym, i, i !in cst.value)] + BitTestsFrom(sym, cst, Scan(cst.mask, true, i + 1, sym.width))
  {
    ConsAppend(es, BitTest(sym, i, i !in cst.value), NeTests(sym, cst.value, cst.mask, i + 1));
    BitTestsFound(sym, cst, i + 1);
  }

  /** expr_simplify_ne() */
  method Ne(sym: Symbol, cst: Constant) returns (r: Expr)
    requires cst.Num?
    ensures r == SimplifyNe(sym, cst)
  {
    var tests: Option<Expr> := None;
    ghost var es: seq<Expr> := [];
    ghost var all := NeTests(sym, cst.value, cst.mask, 0);
    var w := sym.width;
    BitTestsFound(sym, cst, 0);
    var i := Scan(cst.mask, true, 0, w);
    while i < w
      invariant i <= w
      invariant es == [] || es[0].Cmp?
      invariant Combined(Or, es, tests)
      invariant all == es + BitTestsFrom(sym, cst, i)
    {
      var e := Cmp(sym, EQ, Num(if i in cst.value then {} else {i}, {i}));
      CombinedMore(Or, es, tests, e);
      BitTestNext(sym, cst, i, es, all);
      tests := CombineOption(Or, tests, e);
      es := es + [e];
      i := Scan(cst.mask, true, i + 1, w);
    }
    assert es == all;
    r := if tests.None? then Bool(false) else tests.value;
  }

  /** The splits from bit 'z' on, which is the next one to split at. */
  function SplitsFrom(sym: Symbol, cst: Constant, lt: bool, start: nat, z: nat, end: nat): (r: seq<Expr>)
    requires cst.Num? && start <= z <= end
  {
    if z == end then []
    else [SplitAt(sym, cst.value, cst.mask, start, z)] + RelTests(sym, cst.value, cst.mask, lt, start, z + 1, end)
  }

  lemma SplitNext(sym: Symbol, cst: Constant, lt: bool, start: nat, z: nat, end: nat, es: seq<Expr>, all: seq<Expr>)
    requires cst.Num? && start <= z < end && all == es + SplitsFrom(sym, cst, lt, start, z, end)
    ensures var next := Scan(cst.value, lt, z + 1, end);
            all == es + [SplitAt(sym, cst.value, cst.mask, start, z)] + SplitsFrom(sym, cst, lt, start, next, end)
  {
    ConsAppend(es, SplitAt(sym, cst.value, cst.mask, start, z),
               RelTests(sym, cst.value, cst.mask, lt, start, z + 1, end));
    SplitsFound(sym, cst, lt, start, z + 1, end);
  }

  lemma SplitsFound(sym: Symbol, cst: Constant, lt: bool, start: nat, from: nat, end: nat)
    requires cst.Num? && start <= from <= end
    ensures RelTests(sym, cst.value, cst.mask, lt, start, from, end) ==
            SplitsFrom(sym, cst, lt, start, Scan(cst.value, lt, from, end), end)
  {
  }

  /** expr_simplify_relational() */
  method Relational(sym: Symbol, relop: Relop, cst: Constant) returns (r: Expr)
    requires cst.Num?
    ensures r == SimplifyRelational(sym, relop, cst)
  {
    var (start, n) := FindRange(cst.mask, sym.width);
    var end := start + n;
    var lt := relop == LT || relop == LE;
    var eq := relop == LE || relop == GE;
    if Scan(cst.value, !lt, start, end) == end {
      if eq {
        return Bool(true);
      }
      r := Ne(sym, cst);
      return;
    }
    r := Splits(sym, relop, cst, start, end);
  }

  /** Its loop: one disjunct for each bit that the field may differ at. */
  method Splits(sym: Symbol, relop: Relop, cst: Constant, start: nat, end: nat) returns (r: Expr)
    requires cst.Num? && start <= end
    ensures r == Junction(Or, RelDisjuncts(sym, relop, cst, start, end))
  {
    var lt := relop == LT || relop == LE;
    var eq := relop == LE || relop == GE;
    var tests: Option<Expr> := if eq then Some(Cmp(sym, EQ, cst)) else None;
    ghost var es: seq<Expr> := if eq then [Cmp(sym, EQ, cst)] else [];
    ghost var all := RelDisjuncts(sym, relop, cst, start, end);
    SplitsFound(sym, cst, lt, start, start, end);
    var z := Scan(cst.value, lt, start, end);
    while z < end
      invariant start <= z <= end
      invariant es == [] || es[0].Cmp?
      invariant Combined(Or, es, tests)
      invariant all == es + SplitsFrom(sym, cst, lt, start, z, end)
    {
      var e := SplitAt(sym, cst.value, cst.mask, start, z);
      CombinedMore(Or, es, tests, e);
      SplitNext(sym, cst, lt, start, z, end, es, all);
      tests := CombineOption(Or, tests, e);
      es := es + [e];
      z := Scan(cst.value, lt, z + 1, end);
    }
    assert es == all;
    r := if tests.None? then Bool(false) else tests.value;
  }

  lemma DropNext(es: seq<Expr>, i: nat, left: seq<Expr>, all: seq<Expr>)
    requires i < |es| && left + DropBools(es[i..]) == all
    ensures (if es[i].Bool? then left else left + [es[i]]) + DropBools(es[i + 1..]) == all
  {
    DropFirst(es[i..]);
    assert es[i..][0] == es[i] && es[i..][1..] == es[i + 1..];
    ConsAppend(left, es[i], DropBools(es[i + 1..]));
  }

  lemma DropFirst(es: seq<Expr>)
    requires es != []
    ensures DropBools(es) == if es[0].Bool? then DropBools(es[1..]) else [es[0]] + DropBools(es[1..])
  {
  }

  lemma DropEnd(es: seq<Expr>, left: seq<Expr>, all: seq<Expr>)
    requires left + DropBools(es[|es|..]) == all
    ensures left == all
  {
    assert es[|es|..] == [];
  }

  /** The constant 'b' is not among the first operands. */
  predicate NoneUpTo(es: seq<Expr>, i: nat, b: bool)
    requires i <= |es|
  {
    forall k :: 0 <= k < i ==> es[k] != Bool(b)
  }

  lemma FixEnd(op: Op, es: seq<Expr>, left: seq<Expr>)
    requires NoneUpTo(es, |es|, op == Or) && left == DropBools(es)
    ensures Fix(op, es) == Junction(op, left)
  {
  }

  lemma FixDecided(op: Op, es: seq<Expr>, i: nat)
    requires i < |es| && es[i] == Bool(op == Or)
    ensures Fix(op, es) == Bool(op == Or)
  {
    assert es[i] in es;
  }

  /** expr_fix_andor(): drops constants, or stops at one that decides. */
  method FixAndOr(op: Op, es: seq<Expr>) returns (r: Expr)
    ensures r == Fix(op, es)
  {
    var left: seq<Expr> := [];
    ghost var all := DropBools(es);
    assert es[0..] == es;
    for i := 0 to |es|
      invariant left + DropBools(es[i..]) == all
      invariant NoneUpTo(es, i, op == Or)
    {
      DropNext(es, i, left, all);
      if es[i].Bool? {
        if es[i].b == (op == Or) {
          FixDecided(op, es, i);
          return Bool(op == Or);
        }
      } else {
        left := left + [es[i]];
      }
    }
    DropEnd(es, left, all);
    FixEnd(op, es, left);
    if |left| <= 1 {
      return if left == [] then Bool(op == And) else left[0];
    }
    return AndOr(op, left);
  }

  lemma AllStep(done: seq<Expr>, op: Op, subs: seq<Expr>, i: nat, resident: string -> bool)
    requires i < |subs|
    ensures done + SimplifyAll(op, subs[i..], resident) ==
            done + Splice(op, Simplify(subs[i], resident)) + SimplifyAll(op, subs[i + 1..], resident)
  {
    assert subs[i..][1..] == subs[i + 1..];
  }

  /** expr_simplify() */
  method SimplifyTree(e: Expr, resident: string -> bool) returns (r: Expr)
    ensures r == Simplify(e, resident)
    decreases e
  {
    match e {
      case Cmp(sym, relop, cst) =>
        if cst.Str? {
          r := e;
        } else if relop == EQ {
          r := SimplifyEq(sym, cst);
        } else if relop == NE {
          r := Ne(sym, cst);
        } else {
          r := Relational(sym, relop, cst);
        }
      case AndOr(op, subs) =>
        var done: seq<Expr> := [];
        assert subs[0..] == subs;
        for i := 0 to |subs|
          invariant done + SimplifyAll(op, subs[i..], resident) == SimplifyAll(op, subs, resident)
        {
          assert subs[i] in subs;
          AllStep(done, op, subs, i, resident);
          var s := SimplifyTree(subs[i], resident);
          done := done + Splice(op, s);
        }
        assert done == SimplifyAll(op, subs, resident);
        r := FixAndOr(op, done);
      case Bool(_) => r := e;
      case Cond(not, port) => r := Bool(resident(port) != not);
    }
  }

  /** expr_not() */
  method Negate(e: Expr) returns (r: Expr)
    ensures r == Not(e)
    decreases e
  {
    match e {
      case Cmp(sym, relop, cst) => r := Cmp(sym, RelopInvert(relop), cst);
      case AndOr(op, subs) =>
        var done: seq<Expr> := [];
        assert subs[0..] == subs;
        for i := 0 to |subs|
          invariant done + NotAll(subs[i..]) == NotAll(subs)
        {
          assert subs[i..][1..] == subs[i + 1..] && subs[i] in subs;
          var s := Negate(subs[i]);
          done := done + [s];
        }
        r := AndOr(Dual(op), done);
      case Bool(b) => r := Bool(!b);
      case Cond(not, port) => r := Cond(!not, port);
    }
  }
}
