/** What the parser returns: well-formed expressions of the right polarity. */
module ParseResults {
  import opened Util
  import opened Bits
  import opened Expressions
  import opened Simplification
  import opened Annotation
  import opened Tokens
  import opened Parsing

  // ----- what is given

  /** A symbol table as the expr_symtab_add_*() functions build it: strings are
    * nominal, and predicates have one bit and are nominal or Boolean. */
  predicate SymbolsOk(tab: Table) {
    forall name :: name in tab ==>
      var info := tab[name];
      && info.sym.name == name
      && (info.sym.width == 0 ==> info.sym.level == Nominal && info.expansion.None?)
      && (info.expansion.Some? ==> info.sym.width == 1 && info.sym.level != Ordinal)
  }

  predicate WrittenOk(c: Written) {
    c.mask.Some? ==> c.value <= c.mask.value
  }

  predicate AllWritten(cs: seq<Written>) {
    forall c :: c in cs ==> WrittenOk(c)
  }

  /** The lexer refuses values with bits outside of their mask. */
  predicate LexedOk(t: Token) {
    t.MaskedInt? ==> BitsOf(t.n) <= BitsOf(t.mask)
  }

  predicate AllLexed(ts: seq<Token>) {
    forall t :: t in ts ==> LexedOk(t)
  }

  predicate CtxOk(ctx: Ctx) {
    SymbolsOk(ctx.tab) && forall name :: name in ctx.addrSets ==> AllWritten(ctx.addrSets[name])
  }

  // ----- the shape of what is parsed

  /** Polarity of one comparison inside 'not' an odd number of "!": a nominal
    * symbol is compared for equality, a nominal predicate is asked for. */
  predicate PolarCmp(sym: Symbol, relop: Relop, cst: Constant, not: bool, tab: Table)
    requires sym.name in tab
  {
    sym.level == Nominal ==>
      if tab[sym.name].expansion.Some? then cst.Num? && (Positive(relop, cst) != not)
      else relop == if not then NE else EQ
  }

  predicate Polar(e: Expr, not: bool, tab: Table) {
    match e
    case Cmp(sym, relop, cst) => sym.name in tab && PolarCmp(sym, relop, cst, not, tab)
    case AndOr(_, subs) => forall s :: s in subs ==> Polar(s, not, tab)
    case _ => true
  }

  /** As RawCmp(), apart from polarity and the masks of "<" and the like. */
  predicate ShapedCmp(sym: Symbol, relop: Relop, cst: Constant, tab: Table) {
    && sym.name in tab && tab[sym.name].sym == sym
    && (sym.width > 0 <==> cst.Num?)
    && (cst.Num? ==> cst.value <= cst.mask <= Range(0, sym.width))
    && (tab[sym.name].expansion.Some? ==> cst.Num? && !IsRelational(relop))
  }

  predicate Shaped(e: Expr, tab: Table) {
    match e
    case Cmp(sym, relop, cst) => ShapedCmp(sym, relop, cst, tab)
    case AndOr(op, subs) => |subs| >= 2 && forall s :: s in subs ==> Shaped(s, tab) && !(s.AndOr? && s.op == op)
    case _ => true
  }

  /** Well formed, up to the masks of "<" and the like, and of the polarity that
    * 'not' calls for. */
  predicate Good(e: Expr, not: bool, tab: Table) {
    Shaped(e, tab) && Polar(e, not, tab)
  }

  /** Every "<", "<=", ">" or ">=" has a contiguous mask. */
  predicate RelMasks(e: Expr) {
    match e
    case Cmp(sym, relop, cst) => IsRelational(relop) && cst.Num? ==> FindRange(cst.mask, sym.width).1 > 0
    case AndOr(_, subs) => forall s :: s in subs ==> RelMasks(s)
    case _ => true
  }

  lemma {:induction false} GoodIsRaw(e: Expr, tab: Table)
    requires SymbolsOk(tab) && Good(e, false, tab)
    ensures Raw(e, tab) <==> RelMasks(e)
  {
    if e.AndOr? {
      forall s | s in e.subs ensures Raw(s, tab) <==> RelMasks(s) {
        GoodIsRaw(s, tab);
      }
    }
  }

  lemma GoodCombine(op: Op, a: Expr, b: Expr, not: bool, tab: Table)
    requires Good(a, not, tab) && Good(b, not, tab)
    ensures Good(Combine(op, a, b), not, tab)
  {
    var subs := Splice(op, a) + Splice(op, b);
    forall s | s in subs ensures Shaped(s, tab) && !(s.AndOr? && s.op == op) && Polar(s, not, tab) {
      if s in Splice(op, a) {
      } else {
        assert s in Splice(op, b);
      }
    }
    assert |Splice(op, a)| >= 1 && |Splice(op, b)| >= 1;
  }

  lemma NotCmp(sym: Symbol, relop: Relop, cst: Constant, not: bool, tab: Table)
    requires Good(Cmp(sym, relop, cst), not, tab)
    ensures Good(Cmp(sym, RelopInvert(relop), cst), !not, tab)
  {
  }

  /** Negating flips the polarity. */
  lemma {:induction false} GoodNot(e: Expr, not: bool, tab: Table)
    requires Good(e, not, tab)
    ensures Good(Not(e), !not, tab)
  {
    match e
    case Cmp(sym, relop, cst) => NotCmp(sym, relop, cst, not, tab);
    case AndOr(op, subs) =>
      var ns := NotAll(subs);
      forall s | s in ns ensures Shaped(s, tab) && !(s.AndOr? && s.op == Dual(op)) && Polar(s, !not, tab) {
        var i :| 0 <= i < |ns| && ns[i] == s;
        NotAllAt(subs, i);
        assert subs[i] in subs;
        GoodNot(subs[i], not, tab);
      }
    case _ =>
  }

  // ----- constants and fields

  predicate SetOk(cs: ConstantSet) {
    cs.Numbers? ==> AllWritten(cs.nums)
  }

  lemma AddTokenOk(cs: ConstantSet, t: Token, ctx: Ctx)
    requires SetOk(cs) && CtxOk(ctx) && LexedOk(t)
    ensures AddToken(cs, t, ctx).Some? ==> SetOk(AddToken(cs, t, ctx).value)
  {
  }

  lemma {:induction false} ConstantsOk(ts: seq<Token>, cs: ConstantSet, ctx: Ctx)
    requires SetOk(cs) && CtxOk(ctx) && AllLexed(ts)
    ensures var r := ParseConstants(ts, cs, ctx);
            r.Some? ==> SetOk(r.value.0) && AllLexed(r.value.1) && r.value.0.inCurlies == cs.inCurlies
    decreases |ts|
  {
    var r := ParseConstant(ts, cs, ctx);
    if r.Some? {
      AddTokenOk(cs, ts[0], ctx);
      var (cs1, rest) := r.value;
      var rest1 := if Next(rest, Comma) then rest[1..] else rest;
      if !Next(rest1, RCurly) {
        ConstantsOk(rest1, cs1, ctx);
      }
    }
  }

  lemma ConstantSetOk(ts: seq<Token>, ctx: Ctx)
    requires CtxOk(ctx) && AllLexed(ts)
    ensures var r := ParseConstantSet(ts, ctx); r.Some? ==> SetOk(r.value.0) && AllLexed(r.value.1)
  {
    if Next(ts, LCurly) {
      ConstantsOk(ts[1..], Numbers([], true), ctx);
    } else if ts != [] {
      AddTokenOk(Numbers([], false), ts[0], ctx);
    }
  }

  predicate FieldOk(f: Field, tab: Table) {
    && f.info.sym.name in tab && tab[f.info.sym.name] == f.info
    && f.ofs + f.n <= f.info.sym.width && (f.n == 0 <==> f.info.sym.width == 0)
    && (f.info.sym.level == Nominal ==> f.ofs == 0 && f.n == f.info.sym.width)
  }

  lemma ParsedField(ts: seq<Token>, ctx: Ctx)
    requires SymbolsOk(ctx.tab) && AllLexed(ts)
    ensures var r := ParseField(ts, ctx); r.Some? ==> FieldOk(r.value.0, ctx.tab) && AllLexed(r.value.1)
  {
  }

  // ----- comparisons

  lemma NumberCmpGood(f: Field, r: Relop, c: Written, not: bool, tab: Table)
    requires SymbolsOk(tab) && FieldOk(f, tab) && WrittenOk(c) && f.info.sym.width > 0
    requires IsRelational(r) ==> f.info.sym.level == Ordinal
    requires f.info.sym.level == Nominal ==>
               if f.info.expansion.Some? then TestsPositively(r, c, not) else r == if not then NE else EQ
    ensures Good(NumberCmp(f, r, c), not, tab)
  {
    var e := NumberCmp(f, r, c);
    assert e.cst.value <= e.cst.mask <= Range(0, f.info.sym.width);
    if f.info.sym.level == Nominal && f.info.expansion.Some? {
      assert f.ofs == 0 && f.n == 1;
      assert 0 in e.cst.value <==> 0 in c.value;
    }
  }

  lemma {:induction false} CombineAllGood(e: Expr, op: Op, es: seq<Expr>, not: bool, tab: Table)
    requires Good(e, not, tab) && forall x :: x in es ==> Good(x, not, tab)
    ensures Good(CombineAll(e, op, es), not, tab)
    decreases |es|
  {
    if es != [] {
      GoodCombine(op, e, es[0], not, tab);
      CombineAllGood(Combine(op, e, es[0]), op, es[1..], not, tab);
    }
  }

  /** What make_cmp() accepts has the right polarity, and is well formed up to the
    * masks of "<" and the like. */
  lemma MakeCmpGood(f: Field, r: Relop, cs: ConstantSet, not: bool, tab: Table)
    requires SymbolsOk(tab) && FieldOk(f, tab) && SetOk(cs) && MakeCmp(f, r, cs, not).Some?
    ensures Good(MakeCmp(f, r, cs, not).value, not, tab)
  {
    var es := Cmps(f, r, cs);
    forall x | x in es ensures Good(x, not, tab) {
      var i :| 0 <= i < |es| && es[i] == x;
      if cs.Numbers? {
        assert cs.nums[i] in cs.nums;
        NumberCmpGood(f, r, cs.nums[i], not, tab);
      }
    }
    if es != [] {
      CombineAllGood(es[0], if r == EQ then Or else And, es[1..], not, tab);
    }
  }

  // ----- expressions

  ghost predicate Sound(r: Parsed, not: bool, ctx: Ctx) {
    r.Ok? ==> Good(r.e, not, ctx.tab) && AllLexed(r.rest)
  }

  lemma FieldFirstSound(ts: seq<Token>, not: bool, ctx: Ctx)
    requires CtxOk(ctx) && AllLexed(ts)
    ensures Sound(ParseFieldFirst(ts, not, ctx), not, ctx)
  {
    ParsedField(ts, ctx);
    var pf := ParseField(ts, ctx);
    if pf.Some? {
      var (f, rest) := pf.value;
      if rest == [] || !rest[0].Rel? {
        var cs := Numbers([Written({}, None, Hexadecimal)], false);
        if MakeCmp(f, NE, cs, not).Some? {
          MakeCmpGood(f, NE, cs, not, ctx.tab);
        }
      } else {
        ConstantSetOk(rest[1..], ctx);
        var pc := ParseConstantSet(rest[1..], ctx);
        if pc.Some? && MakeCmp(f, rest[0].relop, pc.value.0, not).Some? {
          MakeCmpGood(f, rest[0].relop, pc.value.0, not, ctx.tab);
        }
      }
    }
  }

  /** Two comparisons of a field, joined. */
  lemma BothGood(f: Field, r1: Relop, c1: ConstantSet, r2: Relop, c2: ConstantSet, not: bool, tab: Table)
    requires SymbolsOk(tab) && FieldOk(f, tab) && SetOk(c1) && SetOk(c2)
    requires MakeCmp(f, r1, c1, not).Some? && MakeCmp(f, r2, c2, not).Some?
    ensures Good(Combine(And, MakeCmp(f, r1, c1, not).value, MakeCmp(f, r2, c2, not).value), not, tab)
  {
    MakeCmpGood(f, r1, c1, not, tab);
    MakeCmpGood(f, r2, c2, not, tab);
    GoodCombine(And, MakeCmp(f, r1, c1, not).value, MakeCmp(f, r2, c2, not).value, not, tab);
  }

  lemma SecondSound(f: Field, r1: Relop, c1: ConstantSet, ts: seq<Token>, not: bool, ctx: Ctx)
    requires CtxOk(ctx) && AllLexed(ts) && ts != [] && ts[0].Rel? && FieldOk(f, ctx.tab) && SetOk(c1)
    ensures Sound(ParseSecond(f, r1, c1, ts, not, ctx), not, ctx)
  {
    ConstantSetOk(ts[1..], ctx);
    if ParseSecond(f, r1, c1, ts, not, ctx).Ok? {
      var c2 := ParseConstantSet(ts[1..], ctx).value.0;
      BothGood(f, RelopTurn(r1), c1, ts[0].relop, c2, not, ctx.tab);
    }
  }

  lemma ConstantFirstSound(ts: seq<Token>, not: bool, ctx: Ctx)
    requires CtxOk(ctx) && AllLexed(ts)
    ensures Sound(ParseConstantFirst(ts, not, ctx), not, ctx)
  {
    ConstantSetOk(ts, ctx);
    var pc := ParseConstantSet(ts, ctx);
    if pc.Some? {
      var (c1, rest) := pc.value;
      if rest != [] && rest[0].Rel? {
        ParsedField(rest[1..], ctx);
        var pf := ParseField(rest[1..], ctx);
        if pf.Some? {
          var (f, rest1) := pf.value;
          if rest1 == [] || !rest1[0].Rel? {
            if MakeCmp(f, RelopTurn(rest[0].relop), c1, not).Some? {
              MakeCmpGood(f, RelopTurn(rest[0].relop), c1, not, ctx.tab);
            }
          } else {
            SecondSound(f, rest[0].relop, c1, rest1, not, ctx);
          }
        }
      }
    }
  }

  lemma {:induction false} PrimarySound(ts: seq<Token>, not: bool, depth: nat, ctx: Ctx)
    requires CtxOk(ctx) && AllLexed(ts)
    ensures Sound(ParsePrimary(ts, not, depth, ctx), not, ctx)
    decreases |ts|, 1
  {
    if Next(ts, LParen) {
      ExprSound(ts[1..], not, depth + 1, ctx);
    } else if ts != [] && ts[0].Id? {
      if !Next(ts[1..], LParen) {
        FieldFirstSound(ts, not, ctx);
      }
    } else {
      ConstantFirstSound(ts, not, ctx);
    }
  }

  lemma {:induction false} NotSound(ts: seq<Token>, not: bool, depth: nat, ctx: Ctx)
    requires CtxOk(ctx) && AllLexed(ts)
    ensures Sound(ParseNot(ts, not, depth, ctx), not, ctx)
    decreases |ts|, 2
  {
    if Next(ts, LogNot) {
      PrimarySound(ts[1..], !not, depth, ctx);
      var r := ParsePrimary(ts[1..], !not, depth, ctx);
      if r.Ok? {
        GoodNot(r.e, !not, ctx.tab);
      }
    } else {
      PrimarySound(ts, not, depth, ctx);
    }
  }

  lemma {:induction false} OperandsSound(op: Op, e: Expr, ts: seq<Token>, not: bool, depth: nat, ctx: Ctx)
    requires CtxOk(ctx) && AllLexed(ts) && Good(e, not, ctx.tab)
    ensures Sound(ParseOperands(op, e, ts, not, depth, ctx), not, ctx)
    decreases |ts|, 3
  {
    NotSound(ts, not, depth, ctx);
    var r := ParseNot(ts, not, depth, ctx);
    if r.Ok? {
      GoodCombine(op, e, r.e, not, ctx.tab);
      if r.rest != [] && r.rest[0].Logic? && r.rest[0].op == op {
        OperandsSound(op, Combine(op, e, r.e), r.rest[1..], not, depth, ctx);
      }
    }
  }

  lemma {:induction false} ExprSound(ts: seq<Token>, not: bool, depth: nat, ctx: Ctx)
    requires CtxOk(ctx) && AllLexed(ts)
    ensures Sound(ParseExpr(ts, not, depth, ctx), not, ctx)
    decreases |ts|, 3
  {
    NotSound(ts, not, depth, ctx);
    var r := ParseNot(ts, not, depth, ctx);
    if r.Ok? && r.rest != [] && r.rest[0].Logic? {
      OperandsSound(r.rest[0].op, r.e, r.rest[1..], not, depth, ctx);
    }
  }

  /** However "!" and parentheses nest, what is parsed tests strings and nominal
    * symbols for equality and nominal predicates positively.  It is well formed
    * if and only if every "<" and the like has a contiguous mask. */
  lemma ParsedIsRaw(ts: seq<Token>, ctx: Ctx)
    requires CtxOk(ctx) && AllLexed(ts) && Parse(ts, ctx).Some?
    ensures var e := Parse(ts, ctx).value; Polar(e, false, ctx.tab) && (Raw(e, ctx.tab) <==> RelMasks(e))
  {
    ExprSound(ts, false, 0, ctx);
    GoodIsRaw(Parse(ts, ctx).value, ctx.tab);
  }
}
