/** From the text of a match, as tokens, to flows; and what printing a match is
  * good for. */
module MatchText {
  import opened Util
  import opened Bits
  import opened Expressions
  import opened Simplification
  import opened Annotation
  import opened Tokens
  import opened Parsing
  import opened ParseResults
  import opened ParseMasks
  import opened Formatting
  import opened RoundTrip
  import Matches
  import LogicalFlows

  /** A match that is accepted by the parser is well formed if and only if every
    * address set next to "<", "<=", ">" or ">=" has contiguous masks there, and
    * then it compiles to flows that accept a packet exactly when the match is
    * true of it, in the naive sense. */
  lemma TextToFlows(ts: seq<Token>, ctx: Ctx, rank: Rank, env: Env)
    requires CtxOk(ctx) && TableOk(ctx.tab, rank) && ValidEnv(env)
    requires AllLexed(ts) && Parse(ts, ctx).Some?
    ensures Raw(Parse(ts, ctx).value, ctx.tab) <==> SetsFit(ts, |ts|, ctx)
    ensures SetsFit(ts, |ts|, ctx) ==>
              var e := Parse(ts, ctx).value;
              var a := Annotate(e, true, {}, ctx.tab, rank);
              && a.Some? && Wf(a.value, Fields(ctx.tab))
              && (Matches.Accepts(LogicalFlows.Compile(a.value, env.resident, env.lookup, Fields(ctx.tab)).0, env)
                  <==> Meaning(e, true, ctx.tab, rank, env))
  {
    WellFormedIff(ts, ctx);
    if SetsFit(ts, |ts|, ctx) {
      LogicalFlows.MatchCorrect(Parse(ts, ctx).value, ctx.tab, rank, env);
    }
  }

  /** Printing and parsing succeeds exactly if the expression is printable, and
    * then gives an expression of the same shape with the same value; if the
    * expression is one the parser can produce, so is the result, and it means
    * the same with its prerequisites and predicates. */
  lemma PrintedMeansTheSame(e: Expr, append: bool, ctx: Ctx, rank: Rank, env: Env)
    requires TableFits(ctx.tab) && TableOk(ctx.tab, rank) && Honors(e, ctx.tab)
    ensures Parse(Format(e), ctx).Some? <==> Printable(e, 0, ctx.tab)
    ensures Printable(e, 0, ctx.tab) ==>
              var e1 := Parse(Format(e), ctx).value;
              && SameShape(e, e1)
              && Eval(e1, env) == Eval(e, env)
              && (Raw(e, ctx.tab) ==>
                    && Raw(e1, ctx.tab)
                    && Meaning(e1, append, ctx.tab, rank, env) == Meaning(e, append, ctx.tab, rank, env))
  {
    FormatThenParse(e, ctx);
    CanonShape(e);
    CanonEval(e, ctx.tab, env);
    if Raw(e, ctx.tab) {
      CanonMeaning(e, append, ctx.tab, rank, env);
    }
  }

  /** Not every match that the parser accepts can be printed and read back: a
    * nominal field that is compared under a mask of some adjacent bits, such as
    * "eth.type == 0x800/0xff00", is printed as a subfield, which a nominal field
    * may not have. */
  lemma PartialMaskNotReadBack(sym: Symbol, value: Bits, ofs: nat, n: nat, ctx: Ctx)
    requires TableFits(ctx.tab) && sym.name in ctx.tab && ctx.tab[sym.name].sym == sym
    requires sym.level == Nominal && ctx.tab[sym.name].expansion.None?
    requires 0 < n < sym.width && ofs + n <= sym.width && value <= Range(ofs, ofs + n)
    ensures var mask := Range(ofs, ofs + n);
            var e := Cmp(sym, EQ, Num(value, mask));
            && Parse(MaskedMatch(sym, value, mask), ctx) == Some(e)
            && Parse(Format(e), ctx) == None
  {
    var mask := Range(ofs, ofs + n);
    var e := Cmp(sym, EQ, Num(value, mask));
    MaskedMatchParsed(sym, value, mask, ctx);
    FindRangeExact(mask, sym.width);
    FormatThenParse(e, ctx);
  }

  /** "eth.type == 0x800/0xff00" is one of these matches. */
  lemma EthTypeMatch(sym: Symbol)
    requires sym.width == 16
    ensures MaskedMatch(sym, Range(11, 12), Range(8, 16)) ==
            [Id(sym.name), Rel(EQ), MaskedInt(0x800, 0xff00, Hexadecimal)]
  {
    assert Pow2(8) == 0x100 && Pow2(11) == 0x800 && Pow2(12) == 0x1000 && Pow2(16) == 0x10000;
    assert Number(Range(11, 12), sym.width) == 0x800 by { RunNumber(11, 12, sym.width); }
    assert Number(Range(8, 16), sym.width) == 0xff00 by { RunNumber(8, 16, sym.width); }
  }

  lemma {:induction false} RunNumber(lo: nat, hi: nat, w: nat)
    requires lo <= hi <= w
    ensures Number(Range(lo, hi), w) == Pow2(hi) - Pow2(lo)
    decreases w
  {
    if hi < w {
      RunNumber(lo, hi, w - 1);
    } else if lo < hi {
      RunNumber(lo, hi - 1, w - 1);
      NumberTrim(Range(lo, hi), Range(lo, hi - 1), w - 1);
    } else if w > 0 {
      RunNumber(lo - 1, hi - 1, w - 1);
      NumberTrim(Range(lo, hi), Range(lo - 1, hi - 1), w - 1);
    }
  }

  /** The text "sym == value/mask". */
  function MaskedMatch(sym: Symbol, value: Bits, mask: Bits): (ts: seq<Token>) {
    [Id(sym.name), Rel(EQ), MaskedInt(Number(value, sym.width), Number(mask, sym.width), Hexadecimal)]
  }

  lemma MaskedMatchParsed(sym: Symbol, value: Bits, mask: Bits, ctx: Ctx)
    requires sym.name in ctx.tab && ctx.tab[sym.name].sym == sym && ctx.tab[sym.name].expansion.None?
    requires sym.width > 0 && value <= mask <= Range(0, sym.width)
    ensures Parse(MaskedMatch(sym, value, mask), ctx) == Some(Cmp(sym, EQ, Num(value, mask)))
  {
    var rest: seq<Token> := [];
    var ts := MaskedMatch(sym, value, mask);
    var tail := ts[1..];
    var f, w := Field(ctx.tab[sym.name], 0, sym.width), Written(value, Some(mask), Hexadecimal);
    assert ts == [Id(sym.name)] + tail;
    StartsWithField(ts, 0, ctx);
    WholeField(ctx.tab[sym.name], tail, ctx);
    MaskedConstant(sym, value, mask, tail[1..], ctx);
    FieldThenConstant(ts, f, tail, Numbers([w], false), rest, ctx);
    OneCmp(f, EQ, w, false);
    assert CopyBits(value, 0, sym.width) == value && CopyBits(mask, 0, sym.width) == mask;
    ExprStep(ts, Cmp(sym, EQ, Num(value, mask)), rest, 0, ctx, true);
  }

  lemma MaskedConstant(sym: Symbol, value: Bits, mask: Bits, ts: seq<Token>, ctx: Ctx)
    requires value <= mask <= Range(0, sym.width)
    requires ts == [MaskedInt(Number(value, sym.width), Number(mask, sym.width), Hexadecimal)]
    ensures ParseConstantSet(ts, ctx) == Some((Numbers([Written(value, Some(mask), Hexadecimal)], false), []))
  {
    BitsOfNumber(value, sym.width);
    BitsOfNumber(mask, sym.width);
    assert ts == ts + [];
    OneConstant(ts[0], [], ctx);
    assert [] + [Written(value, Some(mask), Hexadecimal)] == [Written(value, Some(mask), Hexadecimal)];
  }

  /** What goes wrong with "<" and a set whose second constant has a mask: it is
    * accepted if the first has none, and the result is well formed exactly if the
    * second mask is contiguous in the field. */
  lemma MaskedSetComparison(sym: Symbol, set_: string, first: Bits, value: Bits, mask: Bits, ctx: Ctx)
    requires CtxOk(ctx) && sym.name in ctx.tab && ctx.tab[sym.name].sym == sym
    requires sym.level == Ordinal && sym.width > 0 && set_ in ctx.addrSets
    requires ctx.addrSets[set_] == [Written(first, None, Hexadecimal), Written(value, Some(mask), Hexadecimal)]
    requires first <= Range(0, sym.width) && value <= mask <= Range(0, sym.width)
    ensures var p := Parse([Id(sym.name), Rel(LT), Macro(set_)], ctx);
            p.Some? && (Raw(p.value, ctx.tab) <==> FindRange(mask, sym.width).1 > 0)
  {
    var f, cs := Field(ctx.tab[sym.name], 0, sym.width), Numbers(ctx.addrSets[set_], false);
    assert cs.nums[0] in cs.nums && cs.nums[1] in cs.nums;
    assert MakeCmp(f, LT, cs, false).Some?;
    SetComparison(sym, set_, ctx);
    MakeCmpGood(f, LT, cs, false, ctx.tab);
    MakeCmpMasks(f, LT, cs, false, ctx.tab);
    assert CopyBits(mask, 0, sym.width) == mask;
    GoodIsRaw(MakeCmp(f, LT, cs, false).value, ctx.tab);
  }

  /** A comparison of a field with an address set. */
  lemma SetComparison(sym: Symbol, set_: string, ctx: Ctx)
    requires sym.name in ctx.tab && ctx.tab[sym.name].sym == sym && set_ in ctx.addrSets
    ensures Parse([Id(sym.name), Rel(LT), Macro(set_)], ctx) ==
            MakeCmp(Field(ctx.tab[sym.name], 0, sym.width), LT, Numbers(ctx.addrSets[set_], false), false)
  {
    var info, nums := ctx.tab[sym.name], ctx.addrSets[set_];
    var rest: seq<Token> := [];
    var tail := [Rel(LT), Macro(set_)];
    var ts := [Id(sym.name)] + tail;
    assert ts == [Id(sym.name), Rel(LT), Macro(set_)];
    StartsWithField(ts, 0, ctx);
    WholeField(info, tail, ctx);
    var f, cs := Field(info, 0, sym.width), Numbers(nums, false);
    assert [] + nums == nums;
    assert ParseConstantSet(tail[1..], ctx) == Some((cs, rest));
    FieldThenConstant(ts, f, tail, cs, rest, ctx);
    var e := MakeCmp(f, LT, cs, false);
    ExprStep(ts, if e.Some? then e.value else Bool(false), rest, 0, ctx, e.Some?);
  }
}
