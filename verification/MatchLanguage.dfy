/** Parsing match expressions as a whole (lib/expr.c): exactly the accepted phrases
  * are parsed, and each to an expression that says what the phrase does. */
module MatchLanguage {
  import opened Util
  import opened Bits
  import opened Expressions
  import opened Tokens
  import opened Parsing
  import opened ParseResults
  import opened Grammar
  import opened Comparisons
  import opened ParsedPhrases

  // ----- accepted phrases are parsed

  lemma FieldTextIs(fr: FieldRef, rest: seq<Token>, not: bool, depth: nat, ctx: Ctx)
    requires !Next(rest, LParen)
    ensures var text := FieldText(fr, rest);
            !Next(text, LogNot) && ParsePrimary(text, not, depth, ctx) == ParseFieldFirst(text, not, ctx)
  {
    FieldHead(fr, rest);
  }

  lemma ListTextIs(list: ConstantList, rest: seq<Token>, not: bool, depth: nat, ctx: Ctx)
    requires ListOk(list, ctx)
    ensures var text := ListText(list, rest);
            !Next(text, LogNot) && ParsePrimary(text, not, depth, ctx) == ParseConstantFirst(text, not, ctx)
  {
    ListHead(list, rest, ctx);
  }

  lemma ResidesParses(port: string, rest: seq<Token>, not: bool, depth: nat, ctx: Ctx, env: Env)
    ensures PrimaryTo(ParsePrimary(Text(Resides(port), rest), not, depth, ctx), Resides(port), rest, not, ctx, env)
  {
    var text := Text(Resides(port), rest);
    assert text[1..] == [LParen, LitStr(port), RParen] + rest;
    assert text[2..] == [LitStr(port), RParen] + rest;
    assert text[2..][1..] == [RParen] + rest;
    assert text[2..][2..] == rest;
  }

  /** A comparison, or a test of a field or a constant. */
  predicate IsTest(p: Phrase) {
    p.Truth? || p.Bare? || p.FieldFirst? || p.ConstantFirst? || p.Between?
  }

  lemma TestParses(p: Phrase, rest: seq<Token>, not: bool, depth: nat, ctx: Ctx, env: Env)
    requires SymbolsOk(ctx.tab) && Accepted(p, not, depth, ctx) && IsTest(p) && EndsOperand(rest)
    ensures !Next(Text(p, rest), LogNot)
    ensures PrimaryTo(ParsePrimary(Text(p, rest), not, depth, ctx), p, rest, not, ctx, env)
  {
    match p
    case Truth(token) =>
      ListTextIs(Single(token), rest, not, depth, ctx);
      TruthParses(token, rest, not, ctx, env);
    case Bare(field) =>
      FieldTextIs(field, rest, not, depth, ctx);
      BareParses(field, rest, not, ctx, env);
    case FieldFirst(field, relop, list) =>
      FieldTextIs(field, [Rel(relop)] + ListText(list, rest), not, depth, ctx);
      FieldFirstParses(p, rest, not, ctx, env);
    case ConstantFirst(list, relop, field) =>
      ListTextIs(list, [Rel(relop)] + FieldText(field, rest), not, depth, ctx);
      ConstantFirstParses(p, rest, not, ctx, env);
    case Between(list, relop, field, relop2, list2) =>
      ListTextIs(list, [Rel(relop)] + FieldText(field, [Rel(relop2)] + ListText(list2, rest)), not, depth, ctx);
      BetweenParses(p, rest, not, ctx, env);
  }

  predicate IsPrimary(p: Phrase) {
    !p.Negated? && !p.Chain?
  }

  lemma ParenIs(text: seq<Token>, r: Parsed, rest: seq<Token>, not: bool, depth: nat, ctx: Ctx)
    requires depth < MAX_PAREN_DEPTH && r == ParseExpr(text, not, depth + 1, ctx)
    requires r.Ok? && r.rest == [RParen] + rest
    ensures ParsePrimary([LParen] + text, not, depth, ctx) == Ok(r.e, rest, true)
  {
    assert ([LParen] + text)[1..] == text && ([RParen] + rest)[1..] == rest;
  }

  lemma {:induction false} PrimaryParses(p: Phrase, rest: seq<Token>, not: bool, depth: nat, ctx: Ctx, env: Env)
    requires SymbolsOk(ctx.tab) && Accepted(p, not, depth, ctx) && IsPrimary(p) && EndsOperand(rest)
    ensures !Next(Text(p, rest), LogNot)
    ensures PrimaryTo(ParsePrimary(Text(p, rest), not, depth, ctx), p, rest, not, ctx, env)
    decreases p, 0
  {
    match p
    case Resides(port) => ResidesParses(port, rest, not, depth, ctx, env);
    case Paren(q) =>
      PhraseParses(q, [RParen] + rest, not, depth + 1, ctx, env);
      var text := Text(q, [RParen] + rest);
      ParenIs(text, ParseExpr(text, not, depth + 1, ctx), rest, not, depth, ctx);
    case _ => TestParses(p, rest, not, depth, ctx, env);
  }

  lemma NegatedIs(text: seq<Token>, r: Parsed, not: bool, depth: nat, ctx: Ctx)
    requires r == ParsePrimary(text, !not, depth, ctx) && r.Ok? && r.atomic
    ensures ParseNot([LogNot] + text, not, depth, ctx) == Ok(Not(r.e), r.rest, true)
  {
    assert ([LogNot] + text)[1..] == text;
  }

  lemma {:induction false} OperandParses(p: Phrase, rest: seq<Token>, not: bool, depth: nat, ctx: Ctx, env: Env)
    requires SymbolsOk(ctx.tab) && Accepted(p, not, depth, ctx) && !p.Chain? && EndsOperand(rest)
    ensures ParsesTo(ParseNot(Text(p, rest), not, depth, ctx), p, rest, not, ctx, env)
    decreases p, 1
  {
    if p.Negated? {
      PrimaryParses(p.p, rest, !not, depth, ctx, env);
      var r := ParsePrimary(Text(p.p, rest), !not, depth, ctx);
      NegatedIs(Text(p.p, rest), r, not, depth, ctx);
      SaysNot(r.e, !not, env);
    } else {
      PrimaryParses(p, rest, not, depth, ctx, env);
    }
  }

  ghost predicate AllAccepted(ps: seq<Phrase>, not: bool, depth: nat, ctx: Ctx) {
    forall q :: q in ps ==> !q.Chain? && Accepted(q, not, depth, ctx)
  }

  ghost predicate DenotesAll(op: Op, ps: seq<Phrase>, ctx: Ctx, env: Env) {
    match op
    case And => forall q :: q in ps ==> Denotes(q, ctx, env)
    case Or => exists q :: q in ps && Denotes(q, ctx, env)
  }

  lemma DenotesCons(op: Op, ps: seq<Phrase>, ctx: Ctx, env: Env)
    requires ps != []
    ensures |ps| == 1 ==> DenotesAll(op, ps, ctx, env) == Denotes(ps[0], ctx, env)
    ensures DenotesAll(op, ps, ctx, env) == Join(op, Denotes(ps[0], ctx, env), DenotesAll(op, ps[1..], ctx, env))
  {
    assert ps == [ps[0]] + ps[1..];
    forall q ensures q in ps <==> q == ps[0] || q in ps[1..] { }
  }

  /** One operand more. */
  lemma OperandsIs(op: Op, e: Expr, text: seq<Token>, r: Parsed, not: bool, depth: nat, ctx: Ctx)
    requires r == ParseNot(text, not, depth, ctx) && r.Ok?
    ensures var e1 := Combine(op, e, r.e);
            ParseOperands(op, e, text, not, depth, ctx)
            == if r.rest == [] || !r.rest[0].Logic? then Ok(e1, r.rest, false)
               else if r.rest[0].op == op then ParseOperands(op, e1, r.rest[1..], not, depth, ctx)
               else Err
  {
  }

  lemma MoreEnds(op: Op, ps: seq<Phrase>, rest: seq<Token>)
    requires EndsExpr(rest)
    ensures var text := MoreText(op, ps, rest);
            && EndsOperand(text)
            && (ps != [] ==> text[0] == Logic(op) && text[1..] == Text(ps[0], MoreText(op, ps[1..], rest)))
  {
  }

  lemma {:induction false} MoreParse(op: Op, e: Expr, ps: seq<Phrase>, rest: seq<Token>, not: bool, depth: nat,
      ctx: Ctx, env: Env)
    requires SymbolsOk(ctx.tab) && ps != [] && AllAccepted(ps, not, depth, ctx) && EndsExpr(rest)
    ensures var r := ParseOperands(op, e, Text(ps[0], MoreText(op, ps[1..], rest)), not, depth, ctx);
            && r.Ok? && r.rest == rest
            && Says(r.e, not, env) == Join(op, Says(e, not, env), DenotesAll(op, ps, ctx, env))
    decreases ps, 0
  {
    var more := ps[1..];
    var after := MoreText(op, more, rest);
    MoreEnds(op, more, rest);
    OperandParses(ps[0], after, not, depth, ctx, env);
    var r := ParseNot(Text(ps[0], after), not, depth, ctx);
    OperandsIs(op, e, Text(ps[0], after), r, not, depth, ctx);
    SaysCombine(op, e, r.e, not, env);
    DenotesCons(op, ps, ctx, env);
    if more != [] {
      MoreParse(op, Combine(op, e, r.e), more, rest, not, depth, ctx, env);
    }
  }

  lemma ExprIs(text: seq<Token>, r: Parsed, not: bool, depth: nat, ctx: Ctx)
    requires r == ParseNot(text, not, depth, ctx) && r.Ok?
    ensures ParseExpr(text, not, depth, ctx)
            == if r.rest == [] || !r.rest[0].Logic? then Ok(r.e, r.rest, false)
               else ParseOperands(r.rest[0].op, r.e, r.rest[1..], not, depth, ctx)
  {
  }

  lemma {:induction false} PhraseParses(p: Phrase, rest: seq<Token>, not: bool, depth: nat, ctx: Ctx, env: Env)
    requires SymbolsOk(ctx.tab) && Accepted(p, not, depth, ctx) && EndsExpr(rest)
    ensures ParsesTo(ParseExpr(Text(p, rest), not, depth, ctx), p, rest, not, ctx, env)
    decreases p, 2
  {
    if p.Chain? {
      var more := p.ps[1..];
      var after := MoreText(p.op, more, rest);
      MoreEnds(p.op, more, rest);
      OperandParses(p.ps[0], after, not, depth, ctx, env);
      var r := ParseNot(Text(p.ps[0], after), not, depth, ctx);
      ExprIs(Text(p.ps[0], after), r, not, depth, ctx);
      MoreParse(p.op, r.e, more, rest, not, depth, ctx, env);
      DenotesCons(p.op, p.ps, ctx, env);
    } else {
      OperandParses(p, rest, not, depth, ctx, env);
      ExprIs(Text(p, rest), ParseNot(Text(p, rest), not, depth, ctx), not, depth, ctx);
    }
  }

  /** Every accepted phrase is parsed, and to an expression that says of each packet
    * what the phrase does. */
  lemma ParsedMeans(p: Phrase, ctx: Ctx, env: Env)
    requires SymbolsOk(ctx.tab) && Accepted(p, false, 0, ctx)
    ensures var e := Parse(Text(p, []), ctx); e.Some? && Eval(e.value, env) == Denotes(p, ctx, env)
  {
    PhraseParses(p, [], false, 0, ctx, env);
  }

  // ----- what is parsed is an accepted phrase

  /** The phrase that was read, as a primary. */
  ghost predicate PrimaryRead(p: Phrase, text: seq<Token>, r: Parsed, not: bool, depth: nat, ctx: Ctx) {
    && r.Ok? && text == Text(p, r.rest) && Accepted(p, not, depth, ctx)
    && IsPrimary(p) && r.atomic == IsAtomic(p)
  }

  lemma ComparableRead(f: Field, relop: Relop, list: ConstantList, not: bool, ctx: Ctx)
    requires ListOk(list, ctx) && MakeCmp(f, relop, SetOf(TokensOf(list), list.Braced?, ctx), not).Some?
    ensures Comparable(f, relop, list, not, ctx)
  {
    AcceptedIff(f, relop, list, not, ctx);
  }

  lemma FieldFirstRead(text: seq<Token>, not: bool, depth: nat, ctx: Ctx) returns (p: Phrase)
    requires SymbolsOk(ctx.tab) && ParseFieldFirst(text, not, ctx).Ok?
    ensures PrimaryRead(p, text, ParseFieldFirst(text, not, ctx), not, depth, ctx)
  {
    var fr := FieldRead(text, ctx);
    var (f, rest) := ParseField(text, ctx).value;
    FieldIsOk(fr, ctx);
    if rest == [] || !rest[0].Rel? {
      p := Bare(fr);
      BareRead(f, not);
    } else {
      var list := ListRead(rest[1..], ctx);
      p := FieldFirst(fr, rest[0].relop, list);
      ComparableRead(f, rest[0].relop, list, not, ctx);
      assert rest == [rest[0]] + rest[1..];
    }
  }

  lemma BareRead(f: Field, not: bool)
    requires f.n > 0 && MakeCmp(f, NE, Numbers([Written({}, None, Hexadecimal)], false), not).Some?
    ensures f.info.sym.level == Nominal ==> (f.info.expansion.Some? <==> !not)
  {
    var c := Written({}, None, Hexadecimal);
    assert c in [c];
  }

  lemma ConstantFirstRead(text: seq<Token>, not: bool, depth: nat, ctx: Ctx) returns (p: Phrase)
    requires ParseConstantFirst(text, not, ctx).Ok?
    ensures PrimaryRead(p, text, ParseConstantFirst(text, not, ctx), not, depth, ctx)
  {
    var list := ListRead(text, ctx);
    var (c1, rest) := ParseConstantSet(text, ctx).value;
    if rest == [] || !rest[0].Rel? {
      p := TruthRead(list, ctx);
    } else {
      assert rest == [rest[0]] + rest[1..];
      p := AfterConstantsRead(list, c1, rest[0].relop, rest[1..], not, depth, ctx);
    }
  }

  lemma TruthRead(list: ConstantList, ctx: Ctx) returns (p: Phrase)
    requires ListOk(list, ctx) && IsBoolean(SetOf(TokensOf(list), list.Braced?, ctx))
    ensures p.Truth? && list == Single(p.token) && IsTruth(p.token, ctx)
  {
    p := Truth(list.token);
    assert list.token in TokensOf(list);
    SingleNumbers(list.token, ctx);
    var value := NumbersOf(list.token, ctx)[0].value;
    forall i | i in value ensures i == 0 || i >= 64 {
      assert i < 64 ==> i in value * Range(0, 64);
    }
  }

  lemma TurnedRead(fr: FieldRef, relop: Relop, list: ConstantList, not: bool, ctx: Ctx)
    requires FieldOf(fr, ctx).Some? && ListOk(list, ctx)
    requires MakeCmp(FieldOf(fr, ctx).value, RelopTurn(relop), SetOf(TokensOf(list), list.Braced?, ctx), not).Some?
    ensures FieldComparable(fr, relop, list, not, ctx)
  {
    ComparableRead(FieldOf(fr, ctx).value, RelopTurn(relop), list, not, ctx);
    TurnedComparable(FieldOf(fr, ctx).value, relop, list, not, ctx);
  }

  lemma SecondRead(fr: FieldRef, relop: Relop, list: ConstantList, text: seq<Token>, not: bool, ctx: Ctx)
    returns (relop2: Relop, list2: ConstantList)
    requires FieldOf(fr, ctx).Some? && ListOk(list, ctx) && text != [] && text[0].Rel?
    requires ParseSecond(FieldOf(fr, ctx).value, relop, SetOf(TokensOf(list), list.Braced?, ctx), text, not, ctx).Ok?
    ensures var r := ParseSecond(FieldOf(fr, ctx).value, relop, SetOf(TokensOf(list), list.Braced?, ctx), text, not,
                                 ctx);
            text == [Rel(relop2)] + ListText(list2, r.rest) && !r.atomic
    ensures SameDirection(relop, relop2)
    ensures FieldComparable(fr, relop, list, not, ctx) && FieldComparable(fr, relop2, list2, not, ctx)
  {
    relop2 := text[0].relop;
    list2 := ListRead(text[1..], ctx);
    assert text == [text[0]] + text[1..];
    TurnedRead(fr, relop, list, not, ctx);
    ComparableRead(FieldOf(fr, ctx).value, relop2, list2, not, ctx);
  }

  lemma AfterConstantsBy(cs: ConstantSet, relop: Relop, text: seq<Token>, not: bool, ctx: Ctx)
    requires AfterConstants(cs, [Rel(relop)] + text, not, ctx).Ok?
    ensures ParseField(text, ctx).Some?
    ensures var (f, rest) := ParseField(text, ctx).value;
            var r := AfterConstants(cs, [Rel(relop)] + text, not, ctx);
            if rest == [] || !rest[0].Rel? then
              r.rest == rest && !r.atomic && MakeCmp(f, RelopTurn(relop), cs, not).Some?
            else r == ParseSecond(f, relop, cs, rest, not, ctx)
  {
    assert ([Rel(relop)] + text)[1..] == text;
  }

  lemma ReadTurned(list: ConstantList, relop: Relop, fr: FieldRef, r: Parsed, not: bool, depth: nat, ctx: Ctx)
    requires r.Ok? && !r.atomic && FieldComparable(fr, relop, list, not, ctx)
    ensures PrimaryRead(ConstantFirst(list, relop, fr), ListText(list, [Rel(relop)] + FieldText(fr, r.rest)), r,
                        not, depth, ctx)
  {
  }

  lemma ReadBetween(p: Phrase, r: Parsed, not: bool, depth: nat, ctx: Ctx)
    requires r.Ok? && !r.atomic && p.Between? && SameDirection(p.relop, p.relop2)
    requires FieldComparable(p.field, p.relop, p.list, not, ctx)
    requires FieldComparable(p.field, p.relop2, p.list2, not, ctx)
    ensures PrimaryRead(p, Text(p, r.rest), r, not, depth, ctx)
  {
  }

  lemma AfterConstantsRead(list: ConstantList, cs: ConstantSet, relop: Relop, text: seq<Token>, not: bool, depth: nat,
      ctx: Ctx)
    returns (p: Phrase)
    requires ListOk(list, ctx) && cs == SetOf(TokensOf(list), list.Braced?, ctx)
    requires AfterConstants(cs, [Rel(relop)] + text, not, ctx).Ok?
    ensures PrimaryRead(p, ListText(list, [Rel(relop)] + text), AfterConstants(cs, [Rel(relop)] + text, not, ctx),
                        not, depth, ctx)
  {
    AfterConstantsBy(cs, relop, text, not, ctx);
    var r := AfterConstants(cs, [Rel(relop)] + text, not, ctx);
    var fr := FieldRead(text, ctx);
    var rest := ParseField(text, ctx).value.1;
    if rest == [] || !rest[0].Rel? {
      p := ConstantFirst(list, relop, fr);
      TurnedRead(fr, relop, list, not, ctx);
      ReadTurned(list, relop, fr, r, not, depth, ctx);
    } else {
      var relop2, list2 := SecondRead(fr, relop, list, rest, not, ctx);
      p := Between(list, relop, fr, relop2, list2);
      ReadBetween(p, r, not, depth, ctx);
    }
  }

  lemma ResidesRead(text: seq<Token>, not: bool, depth: nat, ctx: Ctx) returns (p: Phrase)
    requires text != [] && text[0] == Id(FUNCTION_NAME) && Next(text[1..], LParen) && ParseResident(text[2..]).Ok?
    ensures PrimaryRead(p, text, ParseResident(text[2..]), not, depth, ctx)
  {
    p := Resides(text[2].s);
    assert text == [text[0], text[1], text[2], text[3]] + text[2..][2..];
  }

  lemma {:induction false} ReadPrimary(text: seq<Token>, not: bool, depth: nat, ctx: Ctx) returns (p: Phrase)
    requires SymbolsOk(ctx.tab) && ParsePrimary(text, not, depth, ctx).Ok?
    ensures PrimaryRead(p, text, ParsePrimary(text, not, depth, ctx), not, depth, ctx)
    decreases |text|, 1
  {
    if Next(text, LParen) {
      var q := ReadExpr(text[1..], not, depth + 1, ctx);
      p := Paren(q);
      var rest := ParseExpr(text[1..], not, depth + 1, ctx).rest;
      assert rest == [RParen] + rest[1..] && text == [LParen] + text[1..];
    } else if text[0].Id? {
      if Next(text[1..], LParen) {
        p := ResidesRead(text, not, depth, ctx);
      } else {
        p := FieldFirstRead(text, not, depth, ctx);
      }
    } else {
      p := ConstantFirstRead(text, not, depth, ctx);
    }
  }

  lemma {:induction false} ReadOperand(text: seq<Token>, not: bool, depth: nat, ctx: Ctx) returns (p: Phrase)
    requires SymbolsOk(ctx.tab) && ParseNot(text, not, depth, ctx).Ok?
    ensures text == Text(p, ParseNot(text, not, depth, ctx).rest) && Accepted(p, not, depth, ctx) && !p.Chain?
    decreases |text|, 2
  {
    if Next(text, LogNot) {
      var q := ReadPrimary(text[1..], !not, depth, ctx);
      p := Negated(q);
      assert text == [LogNot] + text[1..];
    } else {
      p := ReadPrimary(text, not, depth, ctx);
    }
  }

  lemma MoreCons(op: Op, p: Phrase, ps: seq<Phrase>, rest: seq<Token>)
    ensures MoreText(op, [p] + ps, rest) == [Logic(op)] + Text(p, MoreText(op, ps, rest))
  {
    assert ([p] + ps)[1..] == ps;
  }

  lemma AcceptedCons(p: Phrase, ps: seq<Phrase>, not: bool, depth: nat, ctx: Ctx)
    requires !p.Chain? && Accepted(p, not, depth, ctx) && AllAccepted(ps, not, depth, ctx)
    ensures AllAccepted([p] + ps, not, depth, ctx)
  {
  }

  lemma {:induction false} ReadMore(op: Op, e: Expr, text: seq<Token>, not: bool, depth: nat, ctx: Ctx)
    returns (ps: seq<Phrase>)
    requires SymbolsOk(ctx.tab) && ParseOperands(op, e, text, not, depth, ctx).Ok?
    ensures ps != [] && AllAccepted(ps, not, depth, ctx)
    ensures [Logic(op)] + text == MoreText(op, ps, ParseOperands(op, e, text, not, depth, ctx).rest)
    decreases |text|, 3
  {
    var p := ReadOperand(text, not, depth, ctx);
    var r := ParseNot(text, not, depth, ctx);
    OperandsIs(op, e, text, r, not, depth, ctx);
    var more := [];
    if r.rest != [] && r.rest[0].Logic? {
      more := ReadMore(op, Combine(op, e, r.e), r.rest[1..], not, depth, ctx);
      assert r.rest == [r.rest[0]] + r.rest[1..];
    }
    ps := [p] + more;
    MoreCons(op, p, more, ParseOperands(op, e, text, not, depth, ctx).rest);
    AcceptedCons(p, more, not, depth, ctx);
  }

  lemma {:induction false} ReadExpr(text: seq<Token>, not: bool, depth: nat, ctx: Ctx) returns (p: Phrase)
    requires SymbolsOk(ctx.tab) && ParseExpr(text, not, depth, ctx).Ok?
    ensures text == Text(p, ParseExpr(text, not, depth, ctx).rest) && Accepted(p, not, depth, ctx)
    decreases |text|, 3
  {
    p := ReadOperand(text, not, depth, ctx);
    var r := ParseNot(text, not, depth, ctx);
    if r.rest != [] && r.rest[0].Logic? {
      var more := ReadMore(r.rest[0].op, r.e, r.rest[1..], not, depth, ctx);
      assert r.rest == [r.rest[0]] + r.rest[1..];
      var ps := [p] + more;
      assert ps[1..] == more;
      p := Chain(r.rest[0].op, ps);
    }
  }

  // ----- the language

  ghost predicate IsTextOf(ts: seq<Token>, p: Phrase, ctx: Ctx) {
    Accepted(p, false, 0, ctx) && ts == Text(p, [])
  }

  /** A text is parsed if and only if it is that of an accepted phrase. */
  lemma ParsedIff(ts: seq<Token>, ctx: Ctx)
    requires SymbolsOk(ctx.tab)
    ensures Parse(ts, ctx).Some? <==> exists p :: IsTextOf(ts, p, ctx)
  {
    if Parse(ts, ctx).Some? {
      var p := ReadExpr(ts, false, 0, ctx);
      assert IsTextOf(ts, p, ctx);
    }
    if p :| IsTextOf(ts, p, ctx) {
      ParsedMeans(p, ctx, Env(_ => {}, _ => None, _ => false));
    }
  }

  /** However a text is read, it says the same. */
  lemma Unambiguous(ts: seq<Token>, p: Phrase, q: Phrase, ctx: Ctx, env: Env)
    requires SymbolsOk(ctx.tab) && IsTextOf(ts, p, ctx) && IsTextOf(ts, q, ctx)
    ensures Denotes(p, ctx, env) == Denotes(q, ctx, env)
  {
    ParsedMeans(p, ctx, env);
    ParsedMeans(q, ctx, env);
  }
}
