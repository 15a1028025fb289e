/** Formatting match expressions (lib/expr.c), as tokens, and what comes back
  * when the result is parsed. */
module Formatting {
  import opened Bits
  import opened Expressions
  import opened Simplification
  import opened Annotation
  import opened Tokens
  import opened Parsing

  // ----- formatting

  /** A test of one bit is printed as the bit or its negation. */
  predicate IsBitTest(sym: Symbol, relop: Relop, cst: Constant)
    requires cst.Num?
  {
    FindRange(cst.mask, sym.width).1 == 1 && (relop == EQ || relop == NE)
  }

  /** Whether it is printed without "!". */
  predicate BitPositive(sym: Symbol, relop: Relop, cst: Constant)
    requires cst.Num?
  {
    (FindRange(cst.mask, sym.width).0 in cst.value) != (relop == NE)
  }

  function FormatRange(ofs: nat, n: nat): (r: seq<Token>) {
    if n > 1 then [LSquare, Int(ofs, Decimal), Ellipsis, Int(ofs + n - 1, Decimal), RSquare]
    else [LSquare, Int(ofs, Decimal), RSquare]
  }

  function FormatCmp(sym: Symbol, relop: Relop, cst: Constant): (r: seq<Token>) {
    match cst
    case Str(name) => [Id(sym.name), Rel(relop), LitStr(name)]
    case Num(value, mask) =>
      var (ofs, n) := FindRange(mask, sym.width);
      if IsBitTest(sym, relop, cst) then
        (if BitPositive(sym, relop, cst) then [] else [LogNot]) + [Id(sym.name)] +
        (if sym.width > 1 then FormatRange(ofs, 1) else [])
      else
        [Id(sym.name)] + (if 0 < n < sym.width then FormatRange(ofs, n) else []) +
        [Rel(relop),
         if n > 0 then Int(Number(Extract(value, ofs, n), n), Hexadecimal)
         else MaskedInt(Number(value, sym.width), Number(mask, sym.width), Hexadecimal)]
  }

  function FormatCond(not: bool, port: string): (r: seq<Token>) {
    (if not then [LogNot] else []) + [Id(FUNCTION_NAME), LParen, LitStr(port), RParen]
  }

  /** expr_format() */
  function Format(e: Expr): (r: seq<Token>)
    decreases e, 1
  {
    match e
    case Cmp(sym, relop, cst) => FormatCmp(sym, relop, cst)
    case AndOr(op, subs) => FormatSubs(op, subs)
    case Bool(b) => [Int(if b then 1 else 0, Decimal)]
    case Cond(not, port) => FormatCond(not, port)
  }

  /** An operand: AND and OR are put in parentheses. */
  function FormatSub(e: Expr): (r: seq<Token>)
    decreases e, 2
  {
    if e.AndOr? then [LParen] + Format(e) + [RParen] else Format(e)
  }

  function FormatSubs(op: Op, subs: seq<Expr>): (r: seq<Token>)
    decreases subs, 0
  {
    if subs == [] then []
    else if |subs| == 1 then FormatSub(subs[0])
    else FormatSub(subs[0]) + [Logic(op)] + FormatSubs(op, subs[1..])
  }

  // ----- what comes back

  /** The expression that is read back: a test of one bit against 1 becomes a
    * test against 0 with the opposite operator. */
  function CanonCmp(sym: Symbol, relop: Relop, cst: Constant): (r: Expr) {
    if cst.Num? && IsBitTest(sym, relop, cst) then
      Cmp(sym, if BitPositive(sym, relop, cst) then NE else EQ, Num({}, cst.mask))
    else Cmp(sym, relop, cst)
  }

  function Canon(e: Expr): (r: Expr)
    decreases e, 1
  {
    match e
    case Cmp(sym, relop, cst) => CanonCmp(sym, relop, cst)
    case AndOr(op, subs) => AndOr(op, CanonAll(subs))
    case _ => e
  }

  function CanonAll(es: seq<Expr>): (r: seq<Expr>)
    ensures |r| == |es|
    decreases es, 0
  {
    if es == [] then [] else [Canon(es[0])] + CanonAll(es[1..])
  }

  lemma {:induction false} CanonAt(es: seq<Expr>, i: nat)
    requires i < |es|
    ensures CanonAll(es)[i] == Canon(es[i])
  {
    if i > 0 {
      CanonAt(es[1..], i - 1);
    }
  }

  /** The structural invariants, with masks inside their fields and symbols from
    * the table. */
  predicate HonorsCmp(sym: Symbol, cst: Constant, tab: Table) {
    && sym.name in tab && tab[sym.name].sym == sym
    && (sym.width > 0 <==> cst.Num?)
    && (cst.Num? ==> cst.value <= cst.mask <= Range(0, sym.width))
  }

  predicate Honors(e: Expr, tab: Table) {
    match e
    case Cmp(sym, relop, cst) => HonorsCmp(sym, cst, tab)
    case AndOr(op, subs) => |subs| >= 2 && forall s :: s in subs ==> Honors(s, tab) && !(s.AndOr? && s.op == op)
    case _ => true
  }

  /** The test of a bit against 1 and the opposite test against 0. */
  lemma BitTestMeaning(sym: Symbol, relop: Relop, cst: Constant, pkt: Bits)
    requires cst.Num? && cst.value <= cst.mask <= Range(0, sym.width) && IsBitTest(sym, relop, cst)
    ensures var c := CanonCmp(sym, relop, cst);
            RelopTest(c.relop, Compare(pkt * cst.mask, {}, sym.width))
            == RelopTest(relop, Compare(pkt * cst.mask, cst.value, sym.width))
  {
    var ofs := FindRange(cst.mask, sym.width).0;
    FindRangeExact(cst.mask, sym.width);
    assert cst.mask == {ofs};
    var bits := pkt * cst.mask;
    CompareZero(bits, cst.value, sym.width);
    CompareZero(bits, {}, sym.width);
    assert ofs < sym.width;
    forall i | 0 <= i < sym.width && i != ofs ensures i !in bits && i !in cst.value { }
    assert Compare(bits, cst.value, sym.width) == 0 <==> (ofs in bits <==> ofs in cst.value);
    assert Compare(bits, {}, sym.width) == 0 <==> ofs !in bits;
  }

  /** The same tree: AND and OR nodes with the same operands, and comparisons of
    * the same bits of the same symbols. */
  predicate SameShape(a: Expr, b: Expr) {
    match a
    case Cmp(sym, _, cst) =>
      && b.Cmp? && b.sym == sym
      && if cst.Num? then b.cst.Num? && b.cst.mask == cst.mask else a == b
    case AndOr(op, subs) =>
      && b.AndOr? && b.op == op && |b.subs| == |subs|
      && forall i :: 0 <= i < |subs| ==> SameShape(subs[i], b.subs[i])
    case _ => a == b
  }

  lemma {:induction false} CanonShape(e: Expr)
    ensures SameShape(e, Canon(e))
  {
    if e.AndOr? {
      forall i | 0 <= i < |e.subs| ensures SameShape(e.subs[i], CanonAll(e.subs)[i]) {
        CanonAt(e.subs, i);
        CanonShape(e.subs[i]);
      }
    }
  }

  /** What is read back has the same value. */
  lemma {:induction false} CanonEval(e: Expr, tab: Table, env: Env)
    requires Honors(e, tab)
    ensures Eval(Canon(e), env) == Eval(e, env)
    decreases e, 1
  {
    match e
    case Cmp(sym, relop, cst) =>
      if cst.Num? && IsBitTest(sym, relop, cst) {
        BitTestMeaning(sym, relop, cst, env.pkt(sym));
      }
    case AndOr(op, subs) => CanonEvalAll(op, subs, tab, env);
    case _ =>
  }

  lemma {:induction false} CanonEvalAll(op: Op, es: seq<Expr>, tab: Table, env: Env)
    requires forall e :: e in es ==> Honors(e, tab)
    ensures EvalSeq(op, CanonAll(es), env) == EvalSeq(op, es, env)
    decreases es, 0
  {
    if es != [] {
      assert es[0] in es && forall e :: e in es[1..] ==> e in es;
      CanonEval(es[0], tab, env);
      CanonEvalAll(op, es[1..], tab, env);
    }
  }

  /** What is read back for a comparison is well formed and means the same. */
  lemma CanonCmpMeaning(sym: Symbol, relop: Relop, cst: Constant, append: bool, tab: Table, rank: Rank, env: Env)
    requires TableOk(tab, rank) && RawCmp(sym, relop, cst, tab)
    ensures var c := CanonCmp(sym, relop, cst);
            && Raw(c, tab)
            && Meaning(c, append, tab, rank, env) == Meaning(Cmp(sym, relop, cst), append, tab, rank, env)
  {
    assert InfoOk(sym.name, tab, rank);
    if cst.Num? && IsBitTest(sym, relop, cst) {
      FindRangeExact(cst.mask, sym.width);
      var info := tab[sym.name];
      if info.parent.Some? {
        var (p, ofs) := info.parent.value;
        BitTestMeaning(sym, relop, cst, Extract(env.pkt(p), ofs, sym.width));
      } else {
        BitTestMeaning(sym, relop, cst, env.pkt(sym));
      }
    }
  }

  /** What is read back is well formed and means the same. */
  lemma {:induction false} CanonMeaning(e: Expr, append: bool, tab: Table, rank: Rank, env: Env)
    requires TableOk(tab, rank) && Raw(e, tab)
    ensures Raw(Canon(e), tab)
    ensures Meaning(Canon(e), append, tab, rank, env) == Meaning(e, append, tab, rank, env)
    decreases e, 1
  {
    match e
    case Cmp(sym, relop, cst) => CanonCmpMeaning(sym, relop, cst, append, tab, rank, env);
    case AndOr(op, subs) => CanonMeaningAll(op, subs, append, tab, rank, env);
    case _ =>
  }

  lemma {:induction false} CanonMeaningAll(op: Op, es: seq<Expr>, append: bool, tab: Table, rank: Rank, env: Env)
    requires TableOk(tab, rank) && forall e :: e in es ==> Raw(e, tab) && !(e.AndOr? && e.op == op)
    ensures forall c :: c in CanonAll(es) ==> Raw(c, tab) && !(c.AndOr? && c.op == op)
    ensures MeaningSeq(op, CanonAll(es), append, tab, rank, env) == MeaningSeq(op, es, append, tab, rank, env)
    decreases es, 0
  {
    if es != [] {
      var first, others := es[0], es[1..];
      assert first in es && forall e :: e in others ==> e in es;
      CanonMeaning(first, append, tab, rank, env);
      CanonMeaningAll(op, others, append, tab, rank, env);
      var cs := CanonAll(others);
      assert CanonAll(es) == [Canon(first)] + cs && ([Canon(first)] + cs)[1..] == cs;
    }
  }
}
