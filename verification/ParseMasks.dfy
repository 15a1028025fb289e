/** When what the parser returns is well formed, as a condition on the tokens:
  * only an address set next to "<", "<=", ">" or ">=" needs contiguous masks. */
module ParseMasks {
  import opened Util
  import opened Bits
  import opened Expressions
  import opened Simplification
  import opened Annotation
  import opened Tokens
  import opened Parsing
  import opened ParseResults

  // ----- the condition

  /** The masks of the constants are contiguous in the field. */
  predicate ContiguousMasks(f: Field, nums: seq<Written>) {
    forall c :: c in nums ==> ContiguousMask(f, c)
  }

  predicate ContiguousMask(f: Field, c: Written) {
    c.mask.Some? ==> FindRange(CopyBits(c.mask.value, f.ofs, f.n), f.info.sym.width).1 > 0
  }

  predicate RelationalNext(ts: seq<Token>) {
    ts != [] && ts[0].Rel? && IsRelational(ts[0].relop)
  }

  predicate SetNext(ts: seq<Token>, ctx: Ctx) {
    ts != [] && ts[0].Macro? && ts[0].name in ctx.addrSets
  }

  /** If the tokens start with a field, an operator such as "<" and an address
    * set, the set's masks are contiguous in the field. */
  predicate SetAfter(ts: seq<Token>, ctx: Ctx) {
    var field := ParseField(ts, ctx);
    field.Some? ==>
      var (f, rest) := field.value;
      RelationalNext(rest) && SetNext(rest[1..], ctx) ==> ContiguousMasks(f, ctx.addrSets[rest[1].name])
  }

  /** Likewise if they start with an address set, an operator and a field. */
  predicate SetBefore(ts: seq<Token>, ctx: Ctx) {
    SetNext(ts, ctx) && RelationalNext(ts[1..]) ==>
      var field := ParseField(ts[2..], ctx);
      field.Some? ==> ContiguousMasks(field.value.0, ctx.addrSets[ts[0].name])
  }

  /** None of the first 'n' tokens starts a comparison of a field with an address
    * set whose masks are not contiguous in it. */
  predicate SetsFit(ts: seq<Token>, n: nat, ctx: Ctx)
    requires n <= |ts|
  {
    forall k :: 0 <= k < n ==> FitsAt(ts, k, ctx)
  }

  predicate FitsAt(ts: seq<Token>, k: nat, ctx: Ctx)
    requires k <= |ts|
  {
    SetAfter(ts[k..], ctx) && SetBefore(ts[k..], ctx)
  }

  // ----- tokens that start no such comparison

  predicate Dull(t: Token) {
    !t.Id? && !t.Macro?
  }

  lemma DullFits(ts: seq<Token>, k: nat, ctx: Ctx)
    requires k < |ts| && Dull(ts[k])
    ensures FitsAt(ts, k, ctx)
  {
    assert ts[k..][0] == ts[k];
  }

  lemma DullTokens(ts: seq<Token>, n: nat, ctx: Ctx)
    requires n <= |ts| && forall k :: 0 <= k < n ==> Dull(ts[k])
    ensures SetsFit(ts, n, ctx)
  {
    forall k | 0 <= k < n ensures FitsAt(ts, k, ctx) {
      DullFits(ts, k, ctx);
    }
  }

  lemma FitsTail(ts: seq<Token>, a: nat, k: nat, ctx: Ctx)
    requires a + k <= |ts|
    ensures FitsAt(ts[a..], k, ctx) == FitsAt(ts, a + k, ctx)
  {
    assert ts[a..][k..] == ts[a + k..];
  }

  lemma FitsSplit(ts: seq<Token>, a: nat, b: nat, ctx: Ctx)
    requires a + b <= |ts|
    ensures SetsFit(ts, a + b, ctx) <==> SetsFit(ts, a, ctx) && SetsFit(ts[a..], b, ctx)
  {
    forall k | 0 <= k < b ensures FitsAt(ts[a..], k, ctx) == FitsAt(ts, a + k, ctx) {
      FitsTail(ts, a, k, ctx);
    }
    if SetsFit(ts, a, ctx) && SetsFit(ts[a..], b, ctx) {
      forall k | 0 <= k < a + b ensures FitsAt(ts, k, ctx) {
        if k >= a {
          assert FitsAt(ts[a..], k - a, ctx);
        }
      }
    }
  }

  // ----- what is left after parsing is the end of the tokens

  predicate IsTail(ts: seq<Token>, rest: seq<Token>) {
    |rest| <= |ts| && rest == ts[|ts| - |rest|..]
  }

  lemma TailOfTail(ts: seq<Token>, a: seq<Token>, b: seq<Token>)
    requires IsTail(ts, a) && IsTail(a, b)
    ensures IsTail(ts, b)
  {
  }

  /** The tokens in front of 'rest' fit. */
  ghost predicate FitUpTo(ts: seq<Token>, rest: seq<Token>, ctx: Ctx) {
    IsTail(ts, rest) && SetsFit(ts, |ts| - |rest|, ctx)
  }

  lemma FitThrough(ts: seq<Token>, a: seq<Token>, b: seq<Token>, ctx: Ctx)
    requires IsTail(ts, a) && IsTail(a, b)
    ensures IsTail(ts, b) && (FitUpTo(ts, b, ctx) <==> FitUpTo(ts, a, ctx) && FitUpTo(a, b, ctx))
  {
    var m, k := |ts| - |a|, |a| - |b|;
    TailOfTail(ts, a, b);
    FitsSplitAt(ts, a, m, k, m + k, ctx);
  }

  lemma FitsSplitAt(ts: seq<Token>, a: seq<Token>, m: nat, k: nat, n: nat, ctx: Ctx)
    requires n == m + k <= |ts| && a == ts[m..]
    ensures SetsFit(ts, n, ctx) <==> SetsFit(ts, m, ctx) && SetsFit(a, k, ctx)
  {
    FitsSplit(ts, m, k, ctx);
  }

  lemma FitDull(ts: seq<Token>, ctx: Ctx)
    requires ts != [] && Dull(ts[0])
    ensures FitUpTo(ts, ts[1..], ctx)
  {
    DullTokens(ts, 1, ctx);
  }

  lemma FitOne(ts: seq<Token>, ctx: Ctx)
    requires ts != []
    ensures IsTail(ts, ts[1..]) && (FitUpTo(ts, ts[1..], ctx) <==> SetAfter(ts, ctx) && SetBefore(ts, ctx))
  {
    assert ts[0..] == ts;
    assert SetsFit(ts, 1, ctx) <==> FitsAt(ts, 0, ctx);
  }

  predicate NoRelop(ts: seq<Token>) {
    ts == [] || !ts[0].Rel?
  }

  // ----- fields and constants

  /** The tokens of a field after its name. */
  lemma SubfieldTokens(ts: seq<Token>, ctx: Ctx)
    requires ParseField(ts, ctx).Some?
    ensures var n := |ts| - |ParseField(ts, ctx).value.1|;
            && n > 0 && ParseField(ts, ctx).value.1 == ts[n..]
            && forall k :: 1 <= k < n ==> Dull(ts[k])
  {
    var rest := ParseField(ts, ctx).value.1;
    var n := |ts| - |rest|;
    if Next(ts[1..], LSquare) {
      RangeTokens(ts[2..]);
      assert ts[2..][|ts[2..]| - |rest|..] == ts[n..];
      forall k | 1 <= k < n ensures Dull(ts[k]) {
        assert k > 1 ==> ts[k] == ts[2..][k - 2];
      }
    }
  }

  /** Only the name of a field can start such a comparison. */
  lemma FieldTokens(ts: seq<Token>, ctx: Ctx)
    requires ParseField(ts, ctx).Some?
    ensures var rest := ParseField(ts, ctx).value.1;
            ts != [] && IsTail(ts, rest) && IsTail(ts[1..], rest) && FitUpTo(ts[1..], rest, ctx)
  {
    var rest := ParseField(ts, ctx).value.1;
    var n := |ts| - |rest|;
    SubfieldTokens(ts, ctx);
    assert ts[1..][n - 1..] == ts[n..];
    DullTokens(ts[1..], n - 1, ctx);
  }

  lemma RangeTokens(ts: seq<Token>)
    requires ParseRange(ts).Some?
    ensures var rest := ParseRange(ts).value.2;
            IsTail(ts, rest) && forall k :: 0 <= k < |ts| - |rest| ==> Dull(ts[k])
  {
    var rest := ts[1..];
    if Next(rest, Ellipsis) {
      assert rest[1..][0] == ts[2] && rest[2..][0] == ts[3] && rest[3..] == ts[4..];
    } else {
      assert rest[1..] == ts[2..];
    }
  }

  lemma MacroFits(ts: seq<Token>, ctx: Ctx)
    requires ts != [] && !ts[0].Id? && NoRelop(ts[1..])
    ensures FitUpTo(ts, ts[1..], ctx)
  {
    assert ts[0..] == ts;
  }

  lemma {:induction false} ConstantsFit(ts: seq<Token>, cs: ConstantSet, ctx: Ctx)
    requires ParseConstants(ts, cs, ctx).Some?
    ensures ts != [] && !ts[0].Rel? && FitUpTo(ts, ParseConstants(ts, cs, ctx).value.1, ctx)
    ensures ParseConstants(ts, cs, ctx).value.0.inCurlies == cs.inCurlies
    decreases |ts|
  {
    var (cs1, rest) := ParseConstant(ts, cs, ctx).value;
    var rest1 := if Next(rest, Comma) then rest[1..] else rest;
    if Next(rest1, RCurly) {
      FitDull(rest1, ctx);
      ConstantsStep(ts, rest1, rest1[1..], ctx);
    } else {
      ConstantsFit(rest1, cs1, ctx);
      ConstantsStep(ts, rest1, ParseConstants(rest1, cs1, ctx).value.1, ctx);
    }
  }

  /** One constant, possibly a comma, and what follows. */
  lemma ConstantsStep(ts: seq<Token>, rest1: seq<Token>, end: seq<Token>, ctx: Ctx)
    requires ts != [] && !ts[0].Id? && rest1 == (if Next(ts[1..], Comma) then ts[2..] else ts[1..])
    requires NoRelop(rest1) && FitUpTo(rest1, end, ctx)
    ensures FitUpTo(ts, end, ctx)
  {
    MacroFits(ts, ctx);
    if Next(ts[1..], Comma) {
      FitDull(ts[1..], ctx);
      assert ts[1..][1..] == ts[2..];
      FitThrough(ts, ts[1..], rest1, ctx);
    }
    FitThrough(ts, rest1, end, ctx);
  }

  /** Constants start no such comparison, unless an operator follows them. */
  lemma ConstantSetFits(ts: seq<Token>, ctx: Ctx)
    requires ParseConstantSet(ts, ctx).Some?
    ensures var (cs, rest) := ParseConstantSet(ts, ctx).value;
            && ts != [] && IsTail(ts, rest)
            && (cs.inCurlies || NoRelop(rest) ==> FitUpTo(ts, rest, ctx))
            && (!cs.inCurlies ==> rest == ts[1..] && AddToken(Numbers([], false), ts[0], ctx) == Some(cs))
  {
    var (cs, rest) := ParseConstantSet(ts, ctx).value;
    if Next(ts, LCurly) {
      FitDull(ts, ctx);
      ConstantsFit(ts[1..], Numbers([], true), ctx);
      FitThrough(ts, ts[1..], rest, ctx);
    } else {
      if NoRelop(rest) {
        MacroFits(ts, ctx);
      }
    }
  }

  // ----- the masks of comparisons

  lemma CombineMasks(op: Op, a: Expr, b: Expr)
    ensures RelMasks(Combine(op, a, b)) <==> RelMasks(a) && RelMasks(b)
  {
    SpliceMasks(op, a);
    SpliceMasks(op, b);
    forall s ensures s in Splice(op, a) + Splice(op, b) <==> s in Splice(op, a) || s in Splice(op, b) { }
  }

  lemma SpliceMasks(op: Op, e: Expr)
    ensures (forall s :: s in Splice(op, e) ==> RelMasks(s)) <==> RelMasks(e)
  {
    if !(e.AndOr? && e.op == op) {
      assert e in [e];
    }
  }

  lemma {:induction false} CombineAllMasks(e: Expr, op: Op, es: seq<Expr>)
    ensures RelMasks(CombineAll(e, op, es)) <==> RelMasks(e) && forall x :: x in es ==> RelMasks(x)
    decreases |es|
  {
    if es != [] {
      CombineMasks(op, e, es[0]);
      CombineAllMasks(Combine(op, e, es[0]), op, es[1..]);
      assert es == [es[0]] + es[1..];
    }
  }

  lemma {:induction false} NotMasks(e: Expr)
    ensures RelMasks(Not(e)) <==> RelMasks(e)
  {
    if e.AndOr? {
      var ns := NotAll(e.subs);
      forall i | 0 <= i < |ns| ensures RelMasks(ns[i]) <==> RelMasks(e.subs[i]) {
        NotAllAt(e.subs, i);
        NotMasks(e.subs[i]);
      }
      assert (forall s :: s in ns ==> RelMasks(s)) <==> forall i :: 0 <= i < |ns| ==> RelMasks(ns[i]);
      assert (forall s :: s in e.subs ==> RelMasks(s)) <==> forall i :: 0 <= i < |e.subs| ==> RelMasks(e.subs[i]);
    }
  }

  lemma RangeFound(f: Field)
    requires f.ofs + f.n <= f.info.sym.width && f.n > 0
    ensures FindRange(Range(f.ofs, f.ofs + f.n), f.info.sym.width).1 > 0
  {
    FindRangeExact(Range(f.ofs, f.ofs + f.n), f.info.sym.width);
  }

  /** What make_cmp() accepts is well formed if and only if the masks of a
    * comparison such as "<" are contiguous in the field. */
  lemma MakeCmpMasks(f: Field, r: Relop, cs: ConstantSet, not: bool, tab: Table)
    requires FieldOk(f, tab) && MakeCmp(f, r, cs, not).Some?
    ensures RelMasks(MakeCmp(f, r, cs, not).value) <==> (IsRelational(r) ==> cs.Numbers? && ContiguousMasks(f, cs.nums))
  {
    var es := Cmps(f, r, cs);
    if es != [] {
      CombineAllMasks(es[0], if r == EQ then Or else And, es[1..]);
      assert es == [es[0]] + es[1..];
      assert RelMasks(MakeCmp(f, r, cs, not).value) <==> forall x :: x in es ==> RelMasks(x);
      if IsRelational(r) {
        NumbersMasks(f, r, cs.nums);
      }
    }
  }

  lemma NumbersMasks(f: Field, r: Relop, nums: seq<Written>)
    requires f.ofs + f.n <= f.info.sym.width && f.n > 0 && IsRelational(r)
    ensures (forall x :: x in Cmps(f, r, Numbers(nums, false)) ==> RelMasks(x)) <==> ContiguousMasks(f, nums)
  {
    var es := Cmps(f, r, Numbers(nums, false));
    RangeFound(f);
    forall i | 0 <= i < |nums| ensures RelMasks(es[i]) <==> ContiguousMask(f, nums[i]) { }
    if forall x :: x in es ==> RelMasks(x) {
      forall c | c in nums ensures ContiguousMask(f, c) {
        var i :| 0 <= i < |nums| && nums[i] == c;
        assert es[i] in es;
      }
    }
    if ContiguousMasks(f, nums) {
      forall x | x in es ensures RelMasks(x) {
        var i :| 0 <= i < |es| && es[i] == x;
        assert nums[i] in nums;
      }
    }
  }

  /** In a comparison such as "<", only an address set can have masks. */
  lemma RelationalConstant(f: Field, r: Relop, ts: seq<Token>, cs: ConstantSet, rest: seq<Token>, ctx: Ctx)
    requires ParseConstantSet(ts, ctx) == Some((cs, rest)) && RelopFits(f.info.sym, r, cs) && IsRelational(r)
    ensures ts != [] && rest == ts[1..] && cs.Numbers? && !cs.inCurlies
    ensures ContiguousMasks(f, cs.nums) <==> (SetNext(ts, ctx) ==> ContiguousMasks(f, ctx.addrSets[ts[0].name]))
  {
    ConstantSetFits(ts, ctx);
    if SetNext(ts, ctx) {
      assert [] + ctx.addrSets[ts[0].name] == ctx.addrSets[ts[0].name];
    } else {
      assert forall c :: c in cs.nums ==> c.mask.None?;
    }
  }

  // ----- expressions

  /** The expression's masks are contiguous exactly if the tokens that it was
    * parsed from fit, provided that no operator follows them. */
  ghost predicate Matched(ts: seq<Token>, r: Parsed, ctx: Ctx) {
    r.Ok? ==> IsTail(ts, r.rest) && (NoRelop(r.rest) ==> (RelMasks(r.e) <==> FitUpTo(ts, r.rest, ctx)))
  }

  /** A comparison that starts with a field fits exactly if the constants after
    * the operator do. */
  lemma FieldFirstFits(ts: seq<Token>, f: Field, tail: seq<Token>, rest: seq<Token>, ctx: Ctx)
    requires ParseField(ts, ctx) == Some((f, tail)) && IsTail(tail, rest) && FitUpTo(tail, rest, ctx)
    ensures IsTail(ts, rest) && (FitUpTo(ts, rest, ctx) <==> SetAfter(ts, ctx))
  {
    FieldTokens(ts, ctx);
    FitThrough(ts[1..], tail, rest, ctx);
    FitOne(ts, ctx);
    FitThrough(ts, ts[1..], rest, ctx);
  }

  lemma AfterFieldMatched(ts: seq<Token>, not: bool, ctx: Ctx)
    requires SymbolsOk(ctx.tab) && AllLexed(ts)
    ensures Matched(ts, ParseFieldFirst(ts, not, ctx), ctx)
  {
    var r := ParseFieldFirst(ts, not, ctx);
    if r.Ok? {
      ParsedField(ts, ctx);
      var (f, tail) := ParseField(ts, ctx).value;
      FieldTokens(ts, ctx);
      if NoRelop(tail) {
        MakeCmpMasks(f, NE, Numbers([Written({}, None, Hexadecimal)], false), not, ctx.tab);
        FieldFirstFits(ts, f, tail, tail, ctx);
      } else {
        OperatorMatched(ts, f, tail, not, ctx);
      }
    }
  }

  lemma OperatorMatched(ts: seq<Token>, f: Field, tail: seq<Token>, not: bool, ctx: Ctx)
    requires ParseField(ts, ctx) == Some((f, tail)) && FieldOk(f, ctx.tab) && !NoRelop(tail)
    requires AfterField(f, tail, not, ctx).Ok?
    ensures Matched(ts, AfterField(f, tail, not, ctx), ctx)
  {
    var (cs, rest) := ParseConstantSet(tail[1..], ctx).value;
    var op := tail[0].relop;
    FieldTokens(ts, ctx);
    ConstantSetFits(tail[1..], ctx);
    MakeCmpMasks(f, op, cs, not, ctx.tab);
    FitDull(tail, ctx);
    FitThrough(tail, tail[1..], rest, ctx);
    TailOfTail(ts, tail, rest);
    if NoRelop(rest) {
      FieldFirstFits(ts, f, tail, rest, ctx);
      if IsRelational(op) {
        RelationalConstant(f, op, tail[1..], cs, rest, ctx);
      }
    }
  }

  lemma TurnRelational(r: Relop)
    ensures IsRelational(RelopTurn(r)) <==> IsRelational(r)
  {
  }

  /** A comparison that starts with constants. */
  lemma FirstConstantFits(ts: seq<Token>, c1: ConstantSet, rest: seq<Token>, f: Field, rest1: seq<Token>, not: bool,
                          ctx: Ctx)
    requires ParseConstantSet(ts, ctx) == Some((c1, rest)) && !NoRelop(rest)
    requires ParseField(rest[1..], ctx) == Some((f, rest1)) && FieldOk(f, ctx.tab)
    requires MakeCmp(f, RelopTurn(rest[0].relop), c1, not).Some?
    ensures IsTail(ts, rest)
    ensures FitUpTo(ts, rest, ctx) <==> RelMasks(MakeCmp(f, RelopTurn(rest[0].relop), c1, not).value)
  {
    var op := RelopTurn(rest[0].relop);
    TurnRelational(rest[0].relop);
    ConstantSetFits(ts, ctx);
    MakeCmpMasks(f, op, c1, not, ctx.tab);
    if !c1.inCurlies {
      FitOne(ts, ctx);
      assert ts[2..] == rest[1..] && SetAfter(ts, ctx);
    }
    if IsRelational(op) {
      RelationalConstant(f, op, ts, c1, rest, ctx);
    }
  }

  lemma AfterConstantsMatched(ts: seq<Token>, not: bool, ctx: Ctx)
    requires SymbolsOk(ctx.tab) && AllLexed(ts)
    ensures Matched(ts, ParseConstantFirst(ts, not, ctx), ctx)
  {
    var r := ParseConstantFirst(ts, not, ctx);
    if r.Ok? {
      var (c1, rest) := ParseConstantSet(ts, ctx).value;
      ConstantSetFits(ts, ctx);
      if !NoRelop(rest) {
        assert AllLexed(rest[1..]);
        ParsedField(rest[1..], ctx);
        var (f, rest1) := ParseField(rest[1..], ctx).value;
        ComparisonMatched(ts, c1, rest, f, rest1, not, ctx);
      }
    }
  }

  /** Past a dull token in the middle. */
  lemma FitAround(ts: seq<Token>, rest: seq<Token>, end: seq<Token>, ctx: Ctx)
    requires IsTail(ts, rest) && rest != [] && Dull(rest[0]) && IsTail(rest[1..], end)
    ensures IsTail(ts, end)
    ensures FitUpTo(ts, end, ctx) <==> FitUpTo(ts, rest, ctx) && FitUpTo(rest[1..], end, ctx)
  {
    FitDull(rest, ctx);
    FitThrough(rest, rest[1..], end, ctx);
    FitThrough(ts, rest, end, ctx);
  }

  lemma ComparisonMatched(ts: seq<Token>, c1: ConstantSet, rest: seq<Token>, f: Field, rest1: seq<Token>, not: bool,
                          ctx: Ctx)
    requires ParseConstantSet(ts, ctx) == Some((c1, rest)) && !NoRelop(rest)
    requires ParseField(rest[1..], ctx) == Some((f, rest1)) && FieldOk(f, ctx.tab)
    requires AfterConstants(c1, rest, not, ctx).Ok?
    ensures Matched(ts, AfterConstants(c1, rest, not, ctx), ctx)
  {
    FirstConstantFits(ts, c1, rest, f, rest1, not, ctx);
    if NoRelop(rest1) {
      FieldTokens(rest[1..], ctx);
      FieldFirstFits(rest[1..], f, rest1, rest1, ctx);
      FitAround(ts, rest, rest1, ctx);
    } else {
      SecondMatched(ts, c1, rest, f, rest1, not, ctx);
    }
  }

  lemma SecondMatched(ts: seq<Token>, c1: ConstantSet, rest: seq<Token>, f: Field, rest1: seq<Token>, not: bool,
                      ctx: Ctx)
    requires IsTail(ts, rest) && !NoRelop(rest) && !NoRelop(rest1)
    requires ParseField(rest[1..], ctx) == Some((f, rest1)) && FieldOk(f, ctx.tab)
    requires MakeCmp(f, RelopTurn(rest[0].relop), c1, not).Some?
    requires FitUpTo(ts, rest, ctx) <==> RelMasks(MakeCmp(f, RelopTurn(rest[0].relop), c1, not).value)
    ensures Matched(ts, ParseSecond(f, rest[0].relop, c1, rest1, not, ctx), ctx)
  {
    var r := ParseSecond(f, rest[0].relop, c1, rest1, not, ctx);
    if r.Ok? {
      OperatorMatched(rest[1..], f, rest1, not, ctx);
      CombineMasks(And, MakeCmp(f, RelopTurn(rest[0].relop), c1, not).value, AfterField(f, rest1, not, ctx).e);
      FitAround(ts, rest, r.rest, ctx);
    }
  }

  lemma ResidentMatched(ts: seq<Token>, ctx: Ctx)
    requires |ts| >= 2 && ts[0].Id? && ts[1] == LParen
    ensures ParseResident(ts[2..]).Ok? ==> Matched(ts, ParseResident(ts[2..]), ctx)
  {
    if ParseResident(ts[2..]).Ok? {
      FitOne(ts, ctx);
      assert ts[2..][1..] == ts[3..] && ts[2..][2..] == ts[4..];
      DullTokens(ts[1..], 3, ctx);
      assert FitUpTo(ts[1..], ts[4..], ctx);
      assert SetAfter(ts, ctx) by {
        assert ts[1..][0] == LParen;
      }
      FitThrough(ts, ts[1..], ts[4..], ctx);
    }
  }

  /** A dull token, and then what 'r' was parsed from. */
  lemma DullMatched(ts: seq<Token>, r: Parsed, ctx: Ctx)
    requires ts != [] && Dull(ts[0]) && Matched(ts[1..], r, ctx)
    ensures Matched(ts, r, ctx)
  {
    if r.Ok? {
      FitDull(ts, ctx);
      FitThrough(ts, ts[1..], r.rest, ctx);
    }
  }

  lemma ParenMatched(ts: seq<Token>, r: Parsed, ctx: Ctx)
    requires Matched(ts, r, ctx) && r.Ok? && Next(r.rest, RParen)
    ensures Matched(ts, Ok(r.e, r.rest[1..], true), ctx)
  {
    FitDull(r.rest, ctx);
    FitThrough(ts, r.rest, r.rest[1..], ctx);
  }

  lemma {:induction false} PrimaryMatched(ts: seq<Token>, not: bool, depth: nat, ctx: Ctx)
    requires CtxOk(ctx) && AllLexed(ts)
    ensures Matched(ts, ParsePrimary(ts, not, depth, ctx), ctx)
    decreases |ts|, 1
  {
    if Next(ts, LParen) {
      ExprMatched(ts[1..], not, depth + 1, ctx);
      var r := ParseExpr(ts[1..], not, depth + 1, ctx);
      DullMatched(ts, r, ctx);
      if r.Ok? && Next(r.rest, RParen) {
        ParenMatched(ts, r, ctx);
      }
    } else if ts != [] && ts[0].Id? {
      if Next(ts[1..], LParen) {
        ResidentMatched(ts, ctx);
      } else {
        AfterFieldMatched(ts, not, ctx);
      }
    } else {
      AfterConstantsMatched(ts, not, ctx);
    }
  }

  lemma {:induction false} NotMatched(ts: seq<Token>, not: bool, depth: nat, ctx: Ctx)
    requires CtxOk(ctx) && AllLexed(ts)
    ensures Matched(ts, ParseNot(ts, not, depth, ctx), ctx)
    decreases |ts|, 2
  {
    if Next(ts, LogNot) {
      PrimaryMatched(ts[1..], !not, depth, ctx);
      var r := ParsePrimary(ts[1..], !not, depth, ctx);
      DullMatched(ts, r, ctx);
      if r.Ok? {
        NotMasks(r.e);
      }
    } else {
      PrimaryMatched(ts, not, depth, ctx);
    }
  }

  /** Operands that 'r' was parsed from, after an expression 'e'. */
  ghost predicate MatchedAfter(e: Expr, ts: seq<Token>, r: Parsed, ctx: Ctx) {
    r.Ok? ==>
      IsTail(ts, r.rest) && (NoRelop(r.rest) ==> (RelMasks(r.e) <==> RelMasks(e) && FitUpTo(ts, r.rest, ctx)))
  }

  /** An operand, the operator after it, and more operands. */
  lemma MoreMatched(e: Expr, ts: seq<Token>, rest: seq<Token>, r: Parsed, e1: Expr, first: bool, ctx: Ctx)
    requires IsTail(ts, rest) && rest != [] && rest[0].Logic? && MatchedAfter(e1, rest[1..], r, ctx)
    requires RelMasks(e1) <==> first && FitUpTo(ts, rest, ctx)
    ensures r.Ok? ==> IsTail(ts, r.rest) && (NoRelop(r.rest) ==> (RelMasks(r.e) <==> first && FitUpTo(ts, r.rest, ctx)))
  {
    if r.Ok? {
      FitDull(rest, ctx);
      FitThrough(rest, rest[1..], r.rest, ctx);
      FitThrough(ts, rest, r.rest, ctx);
    }
  }

  lemma {:induction false} OperandsMatched(op: Op, e: Expr, ts: seq<Token>, not: bool, depth: nat, ctx: Ctx)
    requires CtxOk(ctx) && AllLexed(ts)
    ensures MatchedAfter(e, ts, ParseOperands(op, e, ts, not, depth, ctx), ctx)
    decreases |ts|, 3
  {
    NotMatched(ts, not, depth, ctx);
    NotSound(ts, not, depth, ctx);
    var r := ParseNot(ts, not, depth, ctx);
    if r.Ok? {
      var e1 := Combine(op, e, r.e);
      CombineMasks(op, e, r.e);
      if r.rest != [] && r.rest[0].Logic? && r.rest[0].op == op {
        assert AllLexed(r.rest[1..]);
        OperandsMatched(op, e1, r.rest[1..], not, depth, ctx);
        MoreMatched(e, ts, r.rest, ParseOperands(op, e1, r.rest[1..], not, depth, ctx), e1, RelMasks(e), ctx);
      }
    }
  }

  lemma {:induction false} ExprMatched(ts: seq<Token>, not: bool, depth: nat, ctx: Ctx)
    requires CtxOk(ctx) && AllLexed(ts)
    ensures Matched(ts, ParseExpr(ts, not, depth, ctx), ctx)
    decreases |ts|, 3
  {
    NotMatched(ts, not, depth, ctx);
    NotSound(ts, not, depth, ctx);
    var r := ParseNot(ts, not, depth, ctx);
    if r.Ok? && r.rest != [] && r.rest[0].Logic? {
      var op := r.rest[0].op;
      assert AllLexed(r.rest[1..]);
      OperandsMatched(op, r.e, r.rest[1..], not, depth, ctx);
      MoreMatched(Bool(true), ts, r.rest, ParseOperands(op, r.e, r.rest[1..], not, depth, ctx), r.e, true, ctx);
    }
  }

  /** What is parsed is well formed if and only if every address set that stands
    * next to "<", "<=", ">" or ">=" has masks that are contiguous in the field
    * on the other side. */
  lemma WellFormedIff(ts: seq<Token>, ctx: Ctx)
    requires CtxOk(ctx) && AllLexed(ts) && Parse(ts, ctx).Some?
    ensures Raw(Parse(ts, ctx).value, ctx.tab) <==> SetsFit(ts, |ts|, ctx)
  {
    ParsedIsRaw(ts, ctx);
    ExprMatched(ts, false, 0, ctx);
  }
}
