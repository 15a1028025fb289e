/** expr_simplify(): only equality tests, no conditions, no empty masks. */
module Simplification {
  import opened Bits
  import opened Expressions

  // ----- well-formed input

  /** Searches bits [0, width) for a single run of 1-bits and returns where it
    * starts and how long it is; (0, 0) if there is no run or more than one. */
  function FindRange(mask: Bits, width: nat): (r: (nat, nat))
  {
    var start := Scan(mask, true, 0, width);
    if start < width then
      var end := Scan(mask, false, start, width);
      if end >= width || Scan(mask, true, end, width) >= width then (start, end - start) else (0, 0)
    else (0, 0)
  }

  /** The search succeeds exactly on the nonempty contiguous masks. */
  lemma FindRangeExact(mask: Bits, width: nat)
    requires mask <= Range(0, width)
    ensures var (start, n) := FindRange(mask, width);
            && (n > 0 ==> start + n <= width && mask == Range(start, start + n))
            && (n > 0 <==> exists lo: nat, hi: nat :: lo < hi <= width && mask == Range(lo, hi))
  {
    var (start, n) := FindRange(mask, width);
    if n > 0 {
      assert mask == Range(start, start + n);
    }
    if lo: nat, hi: nat :| lo < hi <= width && mask == Range(lo, hi) {
      assert lo in mask;
      var s := Scan(mask, true, 0, width);
      assert s == lo;
      var e := Scan(mask, false, s, width);
      assert e < hi ==> e in mask;
      assert hi !in mask;
    }
  }

  predicate IsRelational(relop: Relop) {
    relop != EQ && relop != NE
  }

  /** A comparison as the parser and annotation leave it. */
  predicate WfCmp(sym: Symbol, relop: Relop, cst: Constant, tab: SymTab)
  {
    && sym.name in tab && tab[sym.name] == sym
    && (sym.width > 0 <==> cst.Num?)
    && (cst.Str? ==> relop == EQ)
    && (cst.Num? ==>
          && cst.value <= cst.mask <= Range(0, sym.width)
          && (IsRelational(relop) ==> FindRange(cst.mask, sym.width).1 > 0))
  }

  /** The structural invariants that expr_honors_invariants() checks, and
    * comparisons that are well formed. */
  predicate Wf(e: Expr, tab: SymTab)
  {
    match e
    case Cmp(sym, relop, cst) => WfCmp(sym, relop, cst, tab)
    case AndOr(op, subs) =>
      |subs| >= 2 && forall s :: s in subs ==> Wf(s, tab) && !(s.AndOr? && s.op == op)
    case Bool(_) => true
    case Cond(_, _) => true
  }

  // ----- simplified output

  predicate EqCmp(e: Expr, tab: SymTab)
  {
    && e.Cmp?
    && e.relop == EQ
    && WfCmp(e.sym, e.relop, e.cst, tab)
    && (e.cst.Num? ==> e.cst.mask != {})
  }

  /** Equality tests under AND and OR: no constants, no conditions. */
  predicate Core(e: Expr, tab: SymTab)
  {
    match e
    case Cmp(_, _, _) => EqCmp(e, tab)
    case AndOr(op, subs) =>
      |subs| >= 2 && forall s :: s in subs ==> Core(s, tab) && !(s.AndOr? && s.op == op)
    case Bool(_) => false
    case Cond(_, _) => false
  }

  predicate Simplified(e: Expr, tab: SymTab)
  {
    e.Bool? || Core(e, tab)
  }

  // ----- the algorithm

  /** 'es' as one expression: no node for a single operand. */
  function Junction(op: Op, es: seq<Expr>): (r: Expr)
  {
    if |es| == 0 then Bool(op == And) else if |es| == 1 then es[0] else AndOr(op, es)
  }

  lemma EvalJunction(op: Op, es: seq<Expr>, env: Env)
    ensures Eval(Junction(op, es), env) == EvalSeq(op, es, env)
  {
    if |es| == 1 {
      assert es == [es[0]];
      EvalSingle(op, es[0], env);
    } else {
      EvalAndOr(op, es, env);
    }
  }

  function DropBools(es: seq<Expr>): (r: seq<Expr>)
    ensures forall s :: s in r <==> s in es && !s.Bool?
  {
    if es == [] then []
    else (if es[0].Bool? then [] else [es[0]]) + DropBools(es[1..])
  }

  /** expr_fix() on an AND or OR node. */
  function Fix(op: Op, es: seq<Expr>): (r: Expr)
  {
    if Bool(op == Or) in es then Bool(op == Or) else Junction(op, DropBools(es))
  }

  lemma EvalFix(op: Op, es: seq<Expr>, env: Env)
    ensures Eval(Fix(op, es), env) == EvalSeq(op, es, env)
  {
    if Bool(op == Or) !in es {
      var ds := DropBools(es);
      EvalJunction(op, ds, env);
      forall s | s in es && s !in ds ensures s == Bool(op == And) { }
    }
  }

  function SimplifyEq(sym: Symbol, cst: Constant): (r: Expr)
    requires cst.Num?
  {
    if cst.mask == {} then Bool(true) else Cmp(sym, EQ, cst)
  }

  /** Test that bit 'i' is 'b'. */
  function BitTest(sym: Symbol, i: nat, b: bool): (r: Expr)
  {
    Cmp(sym, EQ, Num(if b then {i} else {}, {i}))
  }

  /** One test per 1-bit of 'mask' in [from, width). */
  function NeTests(sym: Symbol, value: Bits, mask: Bits, from: nat): (r: seq<Expr>)
    requires from <= sym.width
    decreases sym.width - from
  {
    var i := Scan(mask, true, from, sym.width);
    if i == sym.width then [] else [BitTest(sym, i, i !in value)] + NeTests(sym, value, mask, i + 1)
  }

  function SimplifyNe(sym: Symbol, cst: Constant): (r: Expr)
    requires cst.Num?
  {
    Junction(Or, NeTests(sym, cst.value, cst.mask, 0))
  }

  /** The value differs from the constant first at bit 'z', counting from the
    * top: bit 'z' is flipped, the bits below it are free. */
  function SplitAt(sym: Symbol, value: Bits, mask: Bits, start: nat, z: nat): (r: Expr)
  {
    var flipped := if z in value then value - {z} else value + {z};
    Cmp(sym, EQ, Num(flipped - Range(start, z), mask - Range(start, z)))
  }

  /** One split for each bit of 'value' in [from, end) that is 'lt'. */
  function RelTests(sym: Symbol, value: Bits, mask: Bits, lt: bool, start: nat, from: nat, end: nat): (r: seq<Expr>)
    requires start <= from <= end
    ensures |r| <= end - from
    decreases end - from
  {
    var z := Scan(value, lt, from, end);
    if z == end then []
    else [SplitAt(sym, value, mask, start, z)] + RelTests(sym, value, mask, lt, start, z + 1, end)
  }

  function RelDisjuncts(sym: Symbol, relop: Relop, cst: Constant, start: nat, end: nat): (r: seq<Expr>)
    requires cst.Num? && start <= end
  {
    (if relop == LE || relop == GE then [Cmp(sym, EQ, cst)] else [])
    + RelTests(sym, cst.value, cst.mask, relop == LT || relop == LE, start, start, end)
  }

  /** The constant is the greatest (for < and <=) or least value of the range. */
  predicate RelSpecial(relop: Relop, cst: Constant, start: nat, end: nat)
    requires cst.Num? && start <= end
  {
    Scan(cst.value, !(relop == LT || relop == LE), start, end) == end
  }

  function SimplifyRelational(sym: Symbol, relop: Relop, cst: Constant): (r: Expr)
    requires cst.Num?
  {
    var (start, n) := FindRange(cst.mask, sym.width);
    if RelSpecial(relop, cst, start, start + n) then
      if relop == LE || relop == GE then Bool(true) else SimplifyNe(sym, cst)
    else
      Junction(Or, RelDisjuncts(sym, relop, cst, start, start + n))
  }

  function SimplifyCmp(sym: Symbol, relop: Relop, cst: Constant): (r: Expr)
  {
    if cst.Str? then Cmp(sym, relop, cst)
    else if relop == EQ then SimplifyEq(sym, cst)
    else if relop == NE then SimplifyNe(sym, cst)
    else SimplifyRelational(sym, relop, cst)
  }

  function Simplify(e: Expr, resident: string -> bool): (r: Expr)
    decreases e, 1
  {
    match e
    case Cmp(sym, relop, cst) => SimplifyCmp(sym, relop, cst)
    case AndOr(op, subs) => Fix(op, SimplifyAll(op, subs, resident))
    case Bool(_) => e
    case Cond(not, port) => Bool(resident(port) != not)
  }

  function SimplifyAll(op: Op, subs: seq<Expr>, resident: string -> bool): (r: seq<Expr>)
    decreases subs, 0
  {
    if subs == [] then []
    else Splice(op, Simplify(subs[0], resident)) + SimplifyAll(op, subs[1..], resident)
  }

  // ----- comparisons

  lemma EqMeaning(sym: Symbol, value: Bits, mask: Bits, env: Env)
    requires value <= mask <= Range(0, sym.width)
    ensures Eval(Cmp(sym, EQ, Num(value, mask)), env) <==> env.pkt(sym) * mask == value
    ensures env.pkt(sym) * mask == value <==> forall i | i in mask :: i in env.pkt(sym) <==> i in value
  {
    CompareZero(env.pkt(sym) * mask, value, sym.width);
    if forall i | i in mask :: i in env.pkt(sym) <==> i in value {
      assert env.pkt(sym) * mask == value;
    }
    if env.pkt(sym) * mask == value {
      forall i | i in mask ensures i in env.pkt(sym) <==> i in value {
        assert i in env.pkt(sym) * mask <==> i in value;
      }
    }
  }

  lemma {:induction false} NeTestsMeaning(sym: Symbol, value: Bits, mask: Bits, from: nat, env: Env, tab: SymTab)
    requires from <= sym.width
    requires WfCmp(sym, NE, Num(value, mask), tab)
    ensures var ts := NeTests(sym, value, mask, from);
            && (forall s :: s in ts ==> EqCmp(s, tab))
            && (EvalSeq(Or, ts, env) <==> exists i :: i in mask && from <= i && ((i in env.pkt(sym)) != (i in value)))
    decreases sym.width - from
  {
    var i := Scan(mask, true, from, sym.width);
    if i < sym.width {
      var t := BitTest(sym, i, i !in value);
      var rest := NeTests(sym, value, mask, i + 1);
      NeTestsMeaning(sym, value, mask, i + 1, env, tab);
      EqMeaning(sym, t.cst.value, t.cst.mask, env);
      EvalCons(Or, t, rest, env);
    }
  }

  lemma NeCorrect(sym: Symbol, cst: Constant, env: Env, tab: SymTab)
    requires cst.Num? && WfCmp(sym, NE, cst, tab)
    ensures Simplified(SimplifyNe(sym, cst), tab)
    ensures Eval(SimplifyNe(sym, cst), env) == EvalCmp(sym, NE, cst, env)
  {
    NeTestsMeaning(sym, cst.value, cst.mask, 0, env, tab);
    EvalJunction(Or, NeTests(sym, cst.value, cst.mask, 0), env);
    EqMeaning(sym, cst.value, cst.mask, env);
  }

  lemma SplitForm(sym: Symbol, value: Bits, mask: Bits, start: nat, end: nat, z: nat, tab: SymTab)
    requires WfCmp(sym, EQ, Num(value, mask), tab) && mask == Range(start, end) && start <= z < end
    ensures EqCmp(SplitAt(sym, value, mask, start, z), tab)
  {
    assert z in SplitAt(sym, value, mask, start, z).cst.mask;
  }

  /** What it means for a split to hold of a packet. */
  lemma SplitMeaning(sym: Symbol, value: Bits, mask: Bits, start: nat, end: nat, z: nat, env: Env, tab: SymTab)
    requires WfCmp(sym, EQ, Num(value, mask), tab) && mask == Range(start, end) && start <= z < end
    ensures Eval(SplitAt(sym, value, mask, start, z), env)
            <==> TopDifference(env.pkt(sym) * mask, value, sym.width, z)
  {
    var e := SplitAt(sym, value, mask, start, z);
    EqMeaning(sym, e.cst.value, e.cst.mask, env);
    var p := env.pkt(sym) * mask;
    assert end <= sym.width by { assert end - 1 in mask; }
    if TopDifference(p, value, sym.width, z) {
      forall i | i in e.cst.mask ensures i in env.pkt(sym) <==> i in e.cst.value { }
    }
    if forall i | i in e.cst.mask :: i in env.pkt(sym) <==> i in e.cst.value {
      forall i | z < i < sym.width ensures i in p <==> i in value {
        assert i in mask ==> i in e.cst.mask;
      }
    }
  }

  /** The top difference between a packet and the constant lies in [from, end),
    * where the constant's bit is 'lt'. */
  ghost predicate TopIn(p: Bits, value: Bits, w: nat, lt: bool, from: nat, end: nat)
  {
    exists z :: from <= z < end && (z in value) == lt && TopDifference(p, value, w, z)
  }

  /** Bits that are not 'lt' can be skipped. */
  lemma TopInSkip(p: Bits, value: Bits, w: nat, lt: bool, from: nat, end: nat)
    requires from <= end
    ensures var z := Scan(value, lt, from, end);
            TopIn(p, value, w, lt, from, end)
            <==> z < end && (TopDifference(p, value, w, z) || TopIn(p, value, w, lt, z + 1, end))
  {
    var z := Scan(value, lt, from, end);
    if TopIn(p, value, w, lt, from, end) {
      var y :| from <= y < end && (y in value) == lt && TopDifference(p, value, w, y);
      assert y >= z;
    }
  }

  lemma {:induction false} RelTestsForm(sym: Symbol, value: Bits, mask: Bits, lt: bool,
                                        start: nat, from: nat, end: nat, tab: SymTab)
    requires start <= from <= end
    requires WfCmp(sym, EQ, Num(value, mask), tab) && mask == Range(start, end)
    ensures forall s :: s in RelTests(sym, value, mask, lt, start, from, end) ==> EqCmp(s, tab)
    decreases end - from
  {
    var z := Scan(value, lt, from, end);
    if z < end {
      var t, rest := SplitAt(sym, value, mask, start, z), RelTests(sym, value, mask, lt, start, z + 1, end);
      RelTestsForm(sym, value, mask, lt, start, z + 1, end, tab);
      SplitForm(sym, value, mask, start, end, z, tab);
      assert RelTests(sym, value, mask, lt, start, from, end) == [t] + rest;
    }
  }

  /** The splits hold exactly where the constant's top difference has the sign
    * that 'lt' asks for. */
  lemma {:induction false} RelTestsMeaning(sym: Symbol, value: Bits, mask: Bits, lt: bool,
                                           start: nat, from: nat, end: nat, env: Env, tab: SymTab)
    requires start <= from <= end
    requires WfCmp(sym, EQ, Num(value, mask), tab) && mask == Range(start, end)
    ensures EvalSeq(Or, RelTests(sym, value, mask, lt, start, from, end), env)
            <==> TopIn(env.pkt(sym) * mask, value, sym.width, lt, from, end)
    decreases end - from
  {
    var z := Scan(value, lt, from, end);
    if z < end {
      var t, rest := SplitAt(sym, value, mask, start, z), RelTests(sym, value, mask, lt, start, z + 1, end);
      assert RelTests(sym, value, mask, lt, start, from, end) == [t] + rest;
      RelTestsMeaning(sym, value, mask, lt, start, z + 1, end, env, tab);
      SplitMeaning(sym, value, mask, start, end, z, env, tab);
      EvalCons(Or, t, rest, env);
    }
    TopInSkip(env.pkt(sym) * mask, value, sym.width, lt, from, end);
  }

  /** Strict comparison against a constant, by top differences. */
  lemma StrictByTop(sym: Symbol, value: Bits, mask: Bits, lt: bool, start: nat, end: nat, env: Env)
    requires value <= mask == Range(start, end) && start < end <= sym.width
    ensures EvalCmp(sym, if lt then LT else GT, Num(value, mask), env)
            <==> TopIn(env.pkt(sym) * mask, value, sym.width, lt, start, end)
  {
    var p := env.pkt(sym) * mask;
    if Compare(p, value, sym.width) != 0 {
      var z := CompareByTop(p, value, sym.width);
      assert z in mask;
    }
    forall z | TopDifference(p, value, sym.width, z)
      ensures Compare(p, value, sym.width) == if z in value then -1 else 1 {
      TopDecides(p, value, sym.width, z);
    }
  }

  /** At the end of its range, a constant is never strictly passed. */
  lemma SpecialBound(sym: Symbol, relop: Relop, value: Bits, mask: Bits, start: nat, end: nat, env: Env)
    requires value <= mask == Range(start, end) && start < end <= sym.width && IsRelational(relop)
    requires RelSpecial(relop, Num(value, mask), start, end)
    ensures !EvalCmp(sym, if relop == LT || relop == LE then GT else LT, Num(value, mask), env)
  {
    var p := env.pkt(sym) * mask;
    if Compare(p, value, sym.width) != 0 {
      var z := CompareByTop(p, value, sym.width);
      assert z in mask;
    }
  }

  lemma RelDisjunctsMeaning(sym: Symbol, relop: Relop, cst: Constant, start: nat, end: nat, env: Env, tab: SymTab)
    requires cst.Num? && WfCmp(sym, relop, cst, tab) && IsRelational(relop)
    requires cst.mask == Range(start, end) && start < end <= sym.width
    ensures var ds := RelDisjuncts(sym, relop, cst, start, end);
            && (forall s :: s in ds ==> EqCmp(s, tab))
            && EvalSeq(Or, ds, env) == EvalCmp(sym, relop, cst, env)
  {
    var lt := relop == LT || relop == LE;
    var ts := RelTests(sym, cst.value, cst.mask, lt, start, start, end);
    assert start in cst.mask;
    RelTestsForm(sym, cst.value, cst.mask, lt, start, start, end, tab);
    RelTestsMeaning(sym, cst.value, cst.mask, lt, start, start, end, env, tab);
    StrictByTop(sym, cst.value, cst.mask, lt, start, end, env);
    if relop == LE || relop == GE {
      EvalSingle(Or, Cmp(sym, EQ, cst), env);
      EvalConcat(Or, [Cmp(sym, EQ, cst)], ts, env);
    } else {
      assert [] + ts == ts;
    }
  }

  lemma SpecialCorrect(sym: Symbol, relop: Relop, cst: Constant, start: nat, end: nat, env: Env, tab: SymTab)
    requires cst.Num? && WfCmp(sym, relop, cst, tab) && IsRelational(relop)
    requires cst.mask == Range(start, end) && start < end <= sym.width
    requires RelSpecial(relop, cst, start, end)
    ensures relop == LE || relop == GE ==> EvalCmp(sym, relop, cst, env)
    ensures relop == LT || relop == GT ==> EvalCmp(sym, relop, cst, env) == EvalCmp(sym, NE, cst, env)
  {
    SpecialBound(sym, relop, cst.value, cst.mask, start, end, env);
  }

  lemma RelationalCorrect(sym: Symbol, relop: Relop, cst: Constant, env: Env, tab: SymTab)
    requires cst.Num? && WfCmp(sym, relop, cst, tab) && IsRelational(relop)
    ensures Simplified(SimplifyRelational(sym, relop, cst), tab)
    ensures Eval(SimplifyRelational(sym, relop, cst), env) == EvalCmp(sym, relop, cst, env)
  {
    FindRangeExact(cst.mask, sym.width);
    var (start, n) := FindRange(cst.mask, sym.width);
    RelationalAt(sym, relop, cst, start, start + n, env, tab);
  }

  lemma RelationalAt(sym: Symbol, relop: Relop, cst: Constant, start: nat, end: nat, env: Env, tab: SymTab)
    requires cst.Num? && WfCmp(sym, relop, cst, tab) && IsRelational(relop)
    requires start < end && cst.mask == Range(start, end) && FindRange(cst.mask, sym.width) == (start, end - start)
    ensures Simplified(SimplifyRelational(sym, relop, cst), tab)
    ensures Eval(SimplifyRelational(sym, relop, cst), env) == EvalCmp(sym, relop, cst, env)
  {
    if RelSpecial(relop, cst, start, end) {
      SpecialCorrect(sym, relop, cst, start, end, env, tab);
      if relop == LT || relop == GT {
        NeCorrect(sym, cst, env, tab);
      }
    } else {
      RelDisjunctsMeaning(sym, relop, cst, start, end, env, tab);
      EvalJunction(Or, RelDisjuncts(sym, relop, cst, start, end), env);
    }
  }

  lemma CmpCorrect(sym: Symbol, relop: Relop, cst: Constant, env: Env, tab: SymTab)
    requires WfCmp(sym, relop, cst, tab)
    ensures Simplified(SimplifyCmp(sym, relop, cst), tab)
    ensures Eval(SimplifyCmp(sym, relop, cst), env) == EvalCmp(sym, relop, cst, env)
  {
    if cst.Num? {
      if relop == EQ {
        EqMeaning(sym, cst.value, cst.mask, env);
      } else if relop == NE {
        NeCorrect(sym, cst, env, tab);
      } else {
        RelationalCorrect(sym, relop, cst, env, tab);
      }
    }
  }

  // ----- how many disjuncts, and that they do not overlap

  lemma MaskFrom(mask: Bits, from: nat, w: nat)
    requires from <= w
    ensures var i := Scan(mask, true, from, w);
            mask * Range(from, w) == if i < w then {i} + mask * Range(i + 1, w) else {}
  {
  }

  lemma {:induction false} NeTestsCount(sym: Symbol, value: Bits, mask: Bits, from: nat)
    requires from <= sym.width
    ensures |NeTests(sym, value, mask, from)| == |mask * Range(from, sym.width)|
    decreases sym.width - from
  {
    var i := Scan(mask, true, from, sym.width);
    if i < sym.width {
      assert |NeTests(sym, value, mask, from)| == 1 + |NeTests(sym, value, mask, i + 1)|;
      NeTestsCount(sym, value, mask, i + 1);
      assert i !in mask * Range(i + 1, sym.width);
    }
    MaskFrom(mask, from, sym.width);
  }

  lemma {:induction false} RelTestsCount(sym: Symbol, value: Bits, mask: Bits, lt: bool, start: nat, from: nat,
                                         end: nat)
    requires start <= from <= end
    requires Scan(value, !lt, from, end) < end
    ensures |RelTests(sym, value, mask, lt, start, from, end)| < end - from
    decreases end - from
  {
    var z := Scan(value, lt, from, end);
    if z == from {
      RelTestsCount(sym, value, mask, lt, start, from + 1, end);
    }
  }

  lemma {:induction false} RangeSize(lo: nat, hi: nat)
    requires lo <= hi
    ensures |Range(lo, hi)| == hi - lo
    decreases hi - lo
  {
    if lo < hi {
      RangeSize(lo + 1, hi);
      assert Range(lo, hi) == {lo} + Range(lo + 1, hi);
    } else {
      assert Range(lo, hi) == {};
    }
  }

  /** How many disjuncts an expression has, when read as an OR. */
  function Disjuncts(e: Expr): (r: nat) {
    if e.AndOr? && e.op == Or then |e.subs| else if e == Bool(false) then 0 else 1
  }

  lemma NeBound(sym: Symbol, cst: Constant)
    requires cst.Num? && cst.mask <= Range(0, sym.width)
    ensures Disjuncts(SimplifyNe(sym, cst)) <= |cst.mask|
  {
    NeTestsCount(sym, cst.value, cst.mask, 0);
    assert cst.mask * Range(0, sym.width) == cst.mask;
  }

  lemma RelBound(sym: Symbol, relop: Relop, cst: Constant, start: nat, end: nat, tab: SymTab)
    requires cst.Num? && WfCmp(sym, relop, cst, tab) && IsRelational(relop)
    requires start < end && cst.mask == Range(start, end)
    requires !RelSpecial(relop, cst, start, end)
    ensures Disjuncts(Junction(Or, RelDisjuncts(sym, relop, cst, start, end))) <= |cst.mask|
  {
    var lt := relop == LT || relop == LE;
    RangeSize(start, end);
    RelTestsCount(sym, cst.value, cst.mask, lt, start, start, end);
    RelTestsForm(sym, cst.value, cst.mask, lt, start, start, end, tab);
  }

  /** A comparison never needs more disjuncts than its mask has bits; without any
    * bits it is decided. */
  lemma DisjunctBound(sym: Symbol, relop: Relop, cst: Constant, tab: SymTab)
    requires cst.Num? && WfCmp(sym, relop, cst, tab)
    ensures cst.mask != {} ==> Disjuncts(SimplifyCmp(sym, relop, cst)) <= |cst.mask|
    ensures cst.mask == {} ==> SimplifyCmp(sym, relop, cst) == Bool(relop == EQ)
  {
    NeBound(sym, cst);
    if IsRelational(relop) {
      FindRangeExact(cst.mask, sym.width);
      var (start, n) := FindRange(cst.mask, sym.width);
      RelationalBound(sym, relop, cst, start, start + n, tab);
    }
  }

  lemma RelationalBound(sym: Symbol, relop: Relop, cst: Constant, start: nat, end: nat, tab: SymTab)
    requires cst.Num? && WfCmp(sym, relop, cst, tab) && IsRelational(relop)
    requires start < end && cst.mask == Range(start, end) && FindRange(cst.mask, sym.width) == (start, end - start)
    ensures Disjuncts(SimplifyRelational(sym, relop, cst)) <= |cst.mask|
  {
    NeBound(sym, cst);
    if !RelSpecial(relop, cst, start, end) {
      RelBound(sym, relop, cst, start, end, tab);
    }
  }

  lemma {:induction false} RelTestsDisjoint(sym: Symbol, value: Bits, mask: Bits, lt: bool, start: nat, from: nat,
                                            end: nat, env: Env, tab: SymTab, i: nat, j: nat)
    requires start <= from <= end
    requires WfCmp(sym, EQ, Num(value, mask), tab) && mask == Range(start, end)
    requires i < j < |RelTests(sym, value, mask, lt, start, from, end)|
    ensures var ts := RelTests(sym, value, mask, lt, start, from, end); !(Eval(ts[i], env) && Eval(ts[j], env))
    decreases end - from
  {
    var z := Scan(value, lt, from, end);
    var rest := RelTests(sym, value, mask, lt, start, z + 1, end);
    if i > 0 {
      RelTestsDisjoint(sym, value, mask, lt, start, z + 1, end, env, tab, i - 1, j - 1);
    } else if Eval(rest[j - 1], env) {
      assert EvalSeq(Or, rest, env);
      RelTestsMeaning(sym, value, mask, lt, start, z + 1, end, env, tab);
      SplitMeaning(sym, value, mask, start, end, z, env, tab);
    }
  }

  lemma RelDisjointAt(sym: Symbol, relop: Relop, cst: Constant, start: nat, end: nat, env: Env, tab: SymTab, i: nat,
                      j: nat)
    requires start <= end && cst.Num? && WfCmp(sym, EQ, cst, tab) && cst.mask == Range(start, end)
    requires i < j < |RelDisjuncts(sym, relop, cst, start, end)|
    ensures var ds := RelDisjuncts(sym, relop, cst, start, end); !(Eval(ds[i], env) && Eval(ds[j], env))
  {
    var lt := relop == LT || relop == LE;
    var ts := RelTests(sym, cst.value, cst.mask, lt, start, start, end);
    var k := if relop == LE || relop == GE then 1 else 0;
    if i >= k {
      RelTestsDisjoint(sym, cst.value, cst.mask, lt, start, start, end, env, tab, i - k, j - k);
    } else if Eval(ts[j - k], env) {
      assert EvalSeq(Or, ts, env);
      RelTestsMeaning(sym, cst.value, cst.mask, lt, start, start, end, env, tab);
      EqMeaning(sym, cst.value, cst.mask, env);
    }
  }

  /** Outside the special case, at most one disjunct of a relational test holds. */
  lemma RelDisjunctsDisjoint(sym: Symbol, relop: Relop, cst: Constant, env: Env, tab: SymTab, i: nat, j: nat)
    requires cst.Num? && WfCmp(sym, relop, cst, tab) && IsRelational(relop)
    requires var (start, n) := FindRange(cst.mask, sym.width);
             i < j < |RelDisjuncts(sym, relop, cst, start, start + n)|
    ensures var (start, n) := FindRange(cst.mask, sym.width);
            var ds := RelDisjuncts(sym, relop, cst, start, start + n);
            !(Eval(ds[i], env) && Eval(ds[j], env))
  {
    FindRangeExact(cst.mask, sym.width);
    var (start, n) := FindRange(cst.mask, sym.width);
    RelDisjointAt(sym, relop, cst, start, start + n, env, tab, i, j);
  }

  // ----- whole expressions

  lemma JunctionForm(op: Op, es: seq<Expr>, tab: SymTab)
    requires forall s :: s in es ==> Core(s, tab) && !(s.AndOr? && s.op == op)
    ensures Simplified(Junction(op, es), tab)
  {
  }

  /** What an operand list may hold between simplification and fixing. */
  predicate Operands(op: Op, es: seq<Expr>, tab: SymTab) {
    forall s :: s in es ==> Simplified(s, tab) && !(s.AndOr? && s.op == op)
  }

  lemma FixForm(op: Op, es: seq<Expr>, tab: SymTab)
    requires Operands(op, es, tab)
    ensures Simplified(Fix(op, es), tab)
  {
    JunctionForm(op, DropBools(es), tab);
  }

  lemma SpliceForm(op: Op, e: Expr, tab: SymTab)
    requires Simplified(e, tab)
    ensures Operands(op, Splice(op, e), tab)
  {
  }

  /** expr_simplify() keeps the meaning, for the residency answers it asked for,
    * and leaves only equality tests with nonempty masks under AND and OR. */
  lemma {:induction false} SimplifyCorrect(e: Expr, env: Env, tab: SymTab)
    requires Wf(e, tab)
    ensures Simplified(Simplify(e, env.resident), tab)
    ensures Eval(Simplify(e, env.resident), env) == Eval(e, env)
    decreases e, 1
  {
    match e
    case Cmp(sym, relop, cst) => CmpCorrect(sym, relop, cst, env, tab);
    case AndOr(op, subs) =>
      SimplifyAllCorrect(op, subs, env, tab);
      FixForm(op, SimplifyAll(op, subs, env.resident), tab);
      EvalFix(op, SimplifyAll(op, subs, env.resident), env);
      EvalAndOr(op, subs, env);
    case Bool(_) =>
    case Cond(_, _) =>
  }

  lemma {:induction false} SimplifyAllCorrect(op: Op, subs: seq<Expr>, env: Env, tab: SymTab)
    requires forall s :: s in subs ==> Wf(s, tab)
    ensures Operands(op, SimplifyAll(op, subs, env.resident), tab)
    ensures EvalSeq(op, SimplifyAll(op, subs, env.resident), env) == EvalSeq(op, subs, env)
    decreases subs, 0
  {
    if subs != [] {
      var first, rest := Simplify(subs[0], env.resident), SimplifyAll(op, subs[1..], env.resident);
      SimplifyCorrect(subs[0], env, tab);
      SimplifyAllCorrect(op, subs[1..], env, tab);
      SpliceForm(op, first, tab);
      EvalSplice(op, first, env);
      EvalConcat(op, Splice(op, first), rest, env);
      assert subs == [subs[0]] + subs[1..];
      EvalCons(op, subs[0], subs[1..], env);
    }
  }
}
