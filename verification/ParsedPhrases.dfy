/** The parser against the language (lib/expr.c): it accepts a text if and only if
  * the text is that of an accepted phrase, and returns what the phrase says. */
module ParsedPhrases {
  import opened Util
  import opened Bits
  import opened Expressions
  import opened Annotation
  import opened Tokens
  import opened Parsing
  import opened ParseResults
  import opened Grammar
  import opened Comparisons

  // ----- constants

  /** Constants of one type only. */
  lemma {:induction false} OneType(ts: seq<Token>, numeric: bool, ctx: Ctx)
    requires forall t :: t in ts ==> IsNothing(t, ctx) || (IsNumeric(t) <==> numeric)
    ensures if numeric then AllNames(ts, ctx) == [] else AllNumbers(ts, ctx) == []
  {
    if ts != [] {
      assert ts[|ts| - 1] in ts;
      OneType(ts[..|ts| - 1], numeric, ctx);
    }
  }

  lemma UniformType(ts: seq<Token>, ctx: Ctx)
    requires Uniform(ts, ctx) && ts != []
    ensures if IsNumeric(ts[|ts| - 1]) then AllNames(ts, ctx) == [] else AllNumbers(ts, ctx) == []
  {
    OneType(ts, IsNumeric(ts[|ts| - 1]), ctx);
  }

  lemma {:induction false} NothingYet(ts: seq<Token>, i: nat, ctx: Ctx)
    requires AllNumbers(ts, ctx) == [] && AllNames(ts, ctx) == [] && i < |ts|
    ensures IsNothing(ts[i], ctx)
  {
    if i < |ts| - 1 {
      NothingYet(ts[..|ts| - 1], i, ctx);
    }
  }

  lemma EmptyIff(ts: seq<Token>, ctx: Ctx)
    requires Uniform(ts, ctx)
    ensures IsEmpty(SetOf(ts, false, ctx)) <==> forall i :: 0 <= i < |ts| ==> IsNothing(ts[i], ctx)
  {
    if ts != [] {
      UniformType(ts, ctx);
      if IsEmpty(SetOf(ts, false, ctx)) {
        forall i | 0 <= i < |ts| ensures IsNothing(ts[i], ctx) {
          NothingYet(ts, i, ctx);
        }
      } else if forall i :: 0 <= i < |ts| ==> IsNothing(ts[i], ctx) {
        OneType(ts, true, ctx);
        OneType(ts, false, ctx);
        assert false;
      }
    }
  }

  /** One more token goes on with the list, unless it is of the other type. */
  lemma UniformIff(ts: seq<Token>, t: Token, ctx: Ctx)
    requires Uniform(ts, ctx)
    ensures Uniform(ts + [t], ctx) <==>
              IsEmpty(SetOf(ts, false, ctx)) || (IsNumeric(ts[|ts| - 1]) <==> IsNumeric(t))
  {
    var us := ts + [t];
    EmptyIff(ts, ctx);
    if !IsEmpty(SetOf(ts, false, ctx)) {
      var i :| 0 <= i < |ts| && !IsNothing(ts[i], ctx);
      assert us[i] == ts[i] && us[|ts|] == t;
    }
  }

  lemma AllSnoc(ts: seq<Token>, t: Token, ctx: Ctx)
    ensures AllNumbers(ts + [t], ctx) == AllNumbers(ts, ctx) + NumbersOf(t, ctx)
    ensures AllNames(ts + [t], ctx) == AllNames(ts, ctx) + NamesOf(t, ctx)
  {
    assert (ts + [t])[..|ts|] == ts;
  }

  lemma AddedBy(cs: ConstantSet, t: Token, ctx: Ctx)
    ensures AddToken(cs, t, ctx)
            == if !Known(t, ctx) then None
               else if IsNumeric(t) then AddNumbers(cs, NumbersOf(t, ctx)) else AddStrings(cs, NamesOf(t, ctx))
  {
  }

  lemma NumbersAdded(ts: seq<Token>, t: Token, braced: bool, ctx: Ctx)
    requires Uniform(ts, ctx) && IsNumeric(t)
    ensures AddNumbers(SetOf(ts, braced, ctx), NumbersOf(t, ctx))
            == if Uniform(ts + [t], ctx) then Some(SetOf(ts + [t], braced, ctx)) else None
  {
    UniformIff(ts, t, ctx);
    AllSnoc(ts, t, ctx);
    if ts != [] {
      UniformType(ts, ctx);
      assert [] + NumbersOf(t, ctx) == NumbersOf(t, ctx);
    }
  }

  lemma NamesAdded(ts: seq<Token>, t: Token, braced: bool, ctx: Ctx)
    requires Uniform(ts, ctx) && !IsNumeric(t)
    ensures AddStrings(SetOf(ts, braced, ctx), NamesOf(t, ctx))
            == if Uniform(ts + [t], ctx) then Some(SetOf(ts + [t], braced, ctx)) else None
  {
    UniformIff(ts, t, ctx);
    AllSnoc(ts, t, ctx);
    if ts != [] {
      UniformType(ts, ctx);
    }
    assert [] + NamesOf(t, ctx) == NamesOf(t, ctx);
  }

  lemma AddedIs(ts: seq<Token>, t: Token, braced: bool, ctx: Ctx)
    requires Uniform(ts, ctx)
    ensures AddToken(SetOf(ts, braced, ctx), t, ctx)
            == if Known(t, ctx) && Uniform(ts + [t], ctx) then Some(SetOf(ts + [t], braced, ctx)) else None
  {
    AddedBy(SetOf(ts, braced, ctx), t, ctx);
    if IsNumeric(t) {
      NumbersAdded(ts, t, braced, ctx);
    } else {
      NamesAdded(ts, t, braced, ctx);
    }
  }

  lemma UniformPrefix(a: seq<Token>, b: seq<Token>, ctx: Ctx)
    requires Uniform(a + b, ctx)
    ensures Uniform(a, ctx)
  {
    forall i, j | 0 <= i < j < |a| && !IsNothing(a[i], ctx) ensures IsNumeric(a[i]) <==> IsNumeric(a[j]) {
      assert (a + b)[i] == a[i] && (a + b)[j] == a[j];
    }
  }

  function ItemTokens(items: seq<Item>): (r: seq<Token>) {
    TokensOf(Braced(items))
  }

  lemma ItemsCons(ts: seq<Token>, items: seq<Item>)
    requires items != []
    ensures ts + ItemTokens(items) == ts + [items[0].token] + ItemTokens(items[1..])
  {
  }

  lemma ItemsKnown(items: seq<Item>, ctx: Ctx)
    requires items != []
    ensures AllKnown(ItemTokens(items), ctx)
            <==> Known(items[0].token, ctx) && AllKnown(ItemTokens(items[1..]), ctx)
  {
    assert ItemTokens(items) == [items[0].token] + ItemTokens(items[1..]);
  }

  function ItemText(item: Item, rest: seq<Token>): (r: seq<Token>) {
    if item.comma then [item.token, Comma] + rest else [item.token] + rest
  }

  lemma ItemParses(item: Item, rest: seq<Token>, cs: ConstantSet, ctx: Ctx)
    requires AddToken(cs, item.token, ctx).Some? && rest != [] && rest[0] != Comma
    ensures ParseConstants(ItemText(item, rest), cs, ctx)
            == (var cs1 := AddToken(cs, item.token, ctx).value;
                if rest[0] == RCurly then Some((cs1, rest[1..])) else ParseConstants(rest, cs1, ctx))
  {
    var text := ItemText(item, rest);
    if item.comma {
      assert text[1..] == [Comma] + rest;
      assert text[1..][1..] == rest;
    } else {
      assert text[1..] == rest;
    }
  }

  lemma {:induction false} ItemsParse(ts: seq<Token>, items: seq<Item>, rest: seq<Token>, ctx: Ctx)
    requires items != [] && AllKnown(ItemTokens(items), ctx) && Uniform(ts + ItemTokens(items), ctx)
    ensures ParseConstants(ItemsText(items, [RCurly] + rest), SetOf(ts, true, ctx), ctx)
            == Some((SetOf(ts + ItemTokens(items), true, ctx), rest))
    decreases |items|
  {
    var item, more := items[0], items[1..];
    var text := ItemsText(more, [RCurly] + rest);
    ItemsCons(ts, items);
    ItemsKnown(items, ctx);
    UniformPrefix(ts + [item.token], ItemTokens(more), ctx);
    UniformPrefix(ts, [item.token], ctx);
    AddedIs(ts, item.token, true, ctx);
    if more == [] {
      assert ts + [item.token] + ItemTokens(more) == ts + [item.token];
    } else {
      ItemsKnown(more, ctx);
      ItemsParse(ts + [item.token], more, rest, ctx);
    }
    ItemParses(item, text, SetOf(ts, true, ctx), ctx);
  }

  lemma SingleParses(token: Token, rest: seq<Token>, ctx: Ctx)
    requires ListOk(Single(token), ctx)
    ensures ParseConstantSet([token] + rest, ctx) == Some((SetOf([token], false, ctx), rest))
  {
    assert token in TokensOf(Single(token));
    AddedIs([], token, false, ctx);
    assert [] + [token] == [token];
  }

  lemma BracedParses(text: seq<Token>, ctx: Ctx)
    ensures ParseConstantSet([LCurly] + text, ctx) == ParseConstants(text, SetOf([], true, ctx), ctx)
  {
    assert ([LCurly] + text)[1..] == text;
  }

  lemma ListParses(list: ConstantList, rest: seq<Token>, ctx: Ctx)
    requires ListOk(list, ctx)
    ensures ParseConstantSet(ListText(list, rest), ctx) == Some((SetOf(TokensOf(list), list.Braced?, ctx), rest))
  {
    match list
    case Single(token) => SingleParses(token, rest, ctx);
    case Braced(items) =>
      assert [] + ItemTokens(items) == ItemTokens(items);
      ItemsParse([], items, rest, ctx);
      BracedParses(ItemsText(items, [RCurly] + rest), ctx);
  }

  /** The first constant of a list that is read, and the text after it. */
  lemma ItemRead(text: seq<Token>, cs: ConstantSet, ctx: Ctx) returns (item: Item, rest: seq<Token>)
    requires ParseConstants(text, cs, ctx).Some?
    ensures text == ItemText(item, rest) && rest != [] && rest[0] != Comma
    ensures AddToken(cs, item.token, ctx).Some?
  {
    var comma := Next(text[1..], Comma);
    rest := if comma then text[1..][1..] else text[1..];
    item := Item(text[0], comma);
    assert text == [text[0]] + text[1..] && (comma ==> text[1..] == [Comma] + rest);
  }

  lemma {:induction false} ItemsRead(ts: seq<Token>, text: seq<Token>, ctx: Ctx) returns (items: seq<Item>)
    requires Uniform(ts, ctx) && ParseConstants(text, SetOf(ts, true, ctx), ctx).Some?
    ensures items != [] && AllKnown(ItemTokens(items), ctx) && Uniform(ts + ItemTokens(items), ctx)
    ensures text == ItemsText(items, [RCurly] + ParseConstants(text, SetOf(ts, true, ctx), ctx).value.1)
    decreases |text|
  {
    var item, rest := ItemRead(text, SetOf(ts, true, ctx), ctx);
    ItemParses(item, rest, SetOf(ts, true, ctx), ctx);
    AddedIs(ts, item.token, true, ctx);
    var more := [];
    if rest[0] == RCurly {
      assert rest == [RCurly] + rest[1..];
      assert ts + [item.token] + ItemTokens([]) == ts + [item.token];
    } else {
      more := ItemsRead(ts + [item.token], rest, ctx);
    }
    items := [item] + more;
    assert items[1..] == more;
    ItemsCons(ts, items);
    ItemsKnown(items, ctx);
  }

  lemma ListRead(text: seq<Token>, ctx: Ctx) returns (list: ConstantList)
    requires ParseConstantSet(text, ctx).Some?
    ensures ListOk(list, ctx) && text == ListText(list, ParseConstantSet(text, ctx).value.1)
    ensures ParseConstantSet(text, ctx).value.0 == SetOf(TokensOf(list), list.Braced?, ctx)
  {
    if Next(text, LCurly) {
      var items := ItemsRead([], text[1..], ctx);
      list := Braced(items);
      assert [] + ItemTokens(items) == ItemTokens(items);
      assert text == [LCurly] + text[1..];
    } else {
      list := Single(text[0]);
      AddedIs([], text[0], false, ctx);
      assert [] + [text[0]] == [text[0]];
      assert text == [text[0]] + text[1..];
    }
    ListParses(list, ParseConstantSet(text, ctx).value.1, ctx);
  }

  // ----- fields

  lemma RangeParses(low: nat, high: nat, rest: seq<Token>)
    requires Position(low).Some? && Position(high).Some?
    ensures ParseRange([Int(low, Decimal), RSquare] + rest) == Some((Position(low).value, Position(low).value, rest))
    ensures ParseRange([Int(low, Decimal), Ellipsis, Int(high, Decimal), RSquare] + rest)
            == Some((Position(low).value, Position(high).value, rest))
  {
    var one := [Int(low, Decimal), RSquare] + rest;
    assert one[1..] == [RSquare] + rest;
    var two := [Int(low, Decimal), Ellipsis, Int(high, Decimal), RSquare] + rest;
    assert two[1..] == [Ellipsis, Int(high, Decimal), RSquare] + rest;
    assert two[1..][1..] == [Int(high, Decimal), RSquare] + rest;
    assert two[1..][2..] == [RSquare] + rest;
    assert two[1..][3..] == rest;
  }

  lemma SubfieldParses(name: string, low: Option<nat>, high: Option<nat>, text: seq<Token>, rest: seq<Token>, ctx: Ctx)
    requires BitsOfField(name, low, high, ctx).Some? && ParseRange(text) == Some((low.value, high.value, rest))
    ensures ParseField([Id(name), LSquare] + text, ctx) == Some((BitsOfField(name, low, high, ctx).value, rest))
  {
    assert ([Id(name), LSquare] + text)[2..] == text;
  }

  lemma WholeParses(name: string, rest: seq<Token>, ctx: Ctx)
    requires name in ctx.tab && !Next(rest, LSquare)
    ensures ParseField([Id(name)] + rest, ctx) == Some((Field(ctx.tab[name], 0, ctx.tab[name].sym.width), rest))
  {
    assert ([Id(name)] + rest)[1..] == rest;
  }

  lemma FieldParses(f: FieldRef, rest: seq<Token>, ctx: Ctx)
    requires FieldOf(f, ctx).Some? && !Next(rest, LSquare)
    ensures ParseField(FieldText(f, rest), ctx) == Some((FieldOf(f, ctx).value, rest))
  {
    match f
    case Whole(name) => WholeParses(name, rest, ctx);
    case OneBit(name, pos) =>
      RangeParses(pos, pos, rest);
      SubfieldParses(name, Position(pos), Position(pos), [Int(pos, Decimal), RSquare] + rest, rest, ctx);
      OneBitText(name, pos, rest);
    case Part(name, low, high) =>
      RangeParses(low, high, rest);
      SubfieldParses(name, Position(low), Position(high),
                     [Int(low, Decimal), Ellipsis, Int(high, Decimal), RSquare] + rest, rest, ctx);
      PartText(name, low, high, rest);
  }

  lemma OneBitText(name: string, pos: nat, rest: seq<Token>)
    ensures FieldText(OneBit(name, pos), rest) == [Id(name), LSquare] + ([Int(pos, Decimal), RSquare] + rest)
  {
  }

  lemma PartText(name: string, low: nat, high: nat, rest: seq<Token>)
    ensures FieldText(Part(name, low, high), rest)
            == [Id(name), LSquare] + ([Int(low, Decimal), Ellipsis, Int(high, Decimal), RSquare] + rest)
  {
  }

  lemma FieldRead(text: seq<Token>, ctx: Ctx) returns (f: FieldRef)
    requires ParseField(text, ctx).Some?
    ensures FieldOf(f, ctx) == Some(ParseField(text, ctx).value.0)
    ensures text == FieldText(f, ParseField(text, ctx).value.1)
  {
    var name := text[0].name;
    if !Next(text[1..], LSquare) {
      f := Whole(name);
    } else {
      var r2 := text[2..];
      assert text == [text[0], text[1]] + r2;
      if Next(r2[1..], Ellipsis) {
        f := Part(name, r2[0].n, r2[2].n);
        assert r2 == [r2[0], r2[1], r2[2], r2[3]] + r2[4..];
        assert r2[1..][3..] == r2[4..];
      } else {
        f := OneBit(name, r2[0].n);
        assert r2 == [r2[0], r2[1]] + r2[2..];
      }
    }
  }

  // ----- an accepted phrase is parsed, and to what it says

  /** What may follow an operand. */
  predicate EndsOperand(rest: seq<Token>) {
    rest == [] || rest[0] == RParen || rest[0].Logic?
  }

  predicate EndsExpr(rest: seq<Token>) {
    rest == [] || rest[0] == RParen
  }

  /** The result is an expression that says what the phrase does. */
  ghost predicate ParsesTo(r: Parsed, p: Phrase, rest: seq<Token>, not: bool, ctx: Ctx, env: Env) {
    r.Ok? && r.rest == rest && Says(r.e, not, env) == Denotes(p, ctx, env)
  }

  ghost predicate PrimaryTo(r: Parsed, p: Phrase, rest: seq<Token>, not: bool, ctx: Ctx, env: Env) {
    ParsesTo(r, p, rest, not, ctx, env) && r.atomic == IsAtomic(p)
  }

  lemma FieldIsOk(f: FieldRef, ctx: Ctx)
    requires SymbolsOk(ctx.tab) && FieldOf(f, ctx).Some?
    ensures FieldOk(FieldOf(f, ctx).value, ctx.tab)
  {
  }

  lemma FieldHead(f: FieldRef, rest: seq<Token>)
    ensures var text := FieldText(f, rest);
            text[0] == Id(f.name) && if f.Whole? then text[1..] == rest else text[1] == LSquare
  {
  }

  lemma BareParses(fr: FieldRef, rest: seq<Token>, not: bool, ctx: Ctx, env: Env)
    requires SymbolsOk(ctx.tab) && BareOk(fr, not, ctx) && EndsOperand(rest)
    ensures PrimaryTo(ParseFieldFirst(FieldText(fr, rest), not, ctx), Bare(fr), rest, not, ctx, env)
  {
    FieldParses(fr, rest, ctx);
    FieldIsOk(fr, ctx);
    BareSays(FieldOf(fr, ctx).value, not, env);
  }

  /** A field, an operator and constants. */
  lemma AfterFieldIs(f: Field, relop: Relop, text: seq<Token>, cs: ConstantSet, rest: seq<Token>, e: Expr, not: bool,
      ctx: Ctx)
    requires ParseConstantSet(text, ctx) == Some((cs, rest)) && MakeCmp(f, relop, cs, not) == Some(e)
    ensures AfterField(f, [Rel(relop)] + text, not, ctx) == Ok(e, rest, false)
  {
    assert ([Rel(relop)] + text)[1..] == text;
  }

  lemma ListSays(f: Field, relop: Relop, list: ConstantList, not: bool, ctx: Ctx, env: Env) returns (e: Expr)
    requires SymbolsOk(ctx.tab) && FieldOk(f, ctx.tab) && Comparable(f, relop, list, not, ctx)
    ensures MakeCmp(f, relop, SetOf(TokensOf(list), list.Braced?, ctx), not) == Some(e)
    ensures Says(e, not, env) == Holds(f, relop, list, ctx, env)
  {
    ComparisonSays(f, relop, list, not, ctx, env);
    e := MakeCmp(f, relop, SetOf(TokensOf(list), list.Braced?, ctx), not).value;
  }

  lemma TurnedSays(f: Field, relop: Relop, list: ConstantList, not: bool, ctx: Ctx, env: Env) returns (e: Expr)
    requires SymbolsOk(ctx.tab) && FieldOk(f, ctx.tab) && Comparable(f, relop, list, not, ctx)
    ensures MakeCmp(f, RelopTurn(relop), SetOf(TokensOf(list), list.Braced?, ctx), not) == Some(e)
    ensures Says(e, not, env) == HoldsTurned(list, relop, f, ctx, env)
  {
    TurnedComparable(f, relop, list, not, ctx);
    TurnedHolds(f, relop, list, ctx, env);
    e := ListSays(f, RelopTurn(relop), list, not, ctx, env);
  }

  /** A comparison that starts with a field. */
  lemma FieldFirstIs(fr: FieldRef, relop: Relop, list: ConstantList, rest: seq<Token>, e: Expr, not: bool, ctx: Ctx)
    requires FieldOf(fr, ctx).Some? && ListOk(list, ctx)
    requires MakeCmp(FieldOf(fr, ctx).value, relop, SetOf(TokensOf(list), list.Braced?, ctx), not) == Some(e)
    ensures ParseFieldFirst(FieldText(fr, [Rel(relop)] + ListText(list, rest)), not, ctx) == Ok(e, rest, false)
  {
    var text := ListText(list, rest);
    ListParses(list, rest, ctx);
    AfterFieldIs(FieldOf(fr, ctx).value, relop, text, SetOf(TokensOf(list), list.Braced?, ctx), rest, e, not, ctx);
    FieldParses(fr, [Rel(relop)] + text, ctx);
  }

  lemma FieldFirstSays(p: Phrase, not: bool, ctx: Ctx, env: Env) returns (e: Expr)
    requires SymbolsOk(ctx.tab) && p.FieldFirst? && FieldComparable(p.field, p.relop, p.list, not, ctx)
    ensures MakeCmp(FieldOf(p.field, ctx).value, p.relop, SetOf(TokensOf(p.list), p.list.Braced?, ctx), not) == Some(e)
    ensures Says(e, not, env) == Denotes(p, ctx, env)
  {
    FieldIsOk(p.field, ctx);
    e := ListSays(FieldOf(p.field, ctx).value, p.relop, p.list, not, ctx, env);
  }

  lemma FieldFirstParses(p: Phrase, rest: seq<Token>, not: bool, ctx: Ctx, env: Env)
    requires SymbolsOk(ctx.tab) && p.FieldFirst? && FieldComparable(p.field, p.relop, p.list, not, ctx)
    ensures PrimaryTo(ParseFieldFirst(Text(p, rest), not, ctx), p, rest, not, ctx, env)
  {
    var e := FieldFirstSays(p, not, ctx, env);
    FieldFirstIs(p.field, p.relop, p.list, rest, e, not, ctx);
  }

  /** Constants, an operator and a field. */
  lemma AfterConstantsIs(cs: ConstantSet, relop: Relop, text: seq<Token>, f: Field, rest: seq<Token>, e: Expr,
      not: bool, ctx: Ctx)
    requires ParseField(text, ctx) == Some((f, rest)) && EndsOperand(rest)
    requires MakeCmp(f, RelopTurn(relop), cs, not) == Some(e)
    ensures AfterConstants(cs, [Rel(relop)] + text, not, ctx) == Ok(e, rest, false)
  {
    assert ([Rel(relop)] + text)[1..] == text;
  }

  /** A comparison that starts with constants. */
  lemma ConstantFirstIs(list: ConstantList, relop: Relop, fr: FieldRef, rest: seq<Token>, e: Expr, not: bool, ctx: Ctx)
    requires FieldOf(fr, ctx).Some? && ListOk(list, ctx) && EndsOperand(rest)
    requires MakeCmp(FieldOf(fr, ctx).value, RelopTurn(relop), SetOf(TokensOf(list), list.Braced?, ctx), not) == Some(e)
    ensures ParseConstantFirst(ListText(list, [Rel(relop)] + FieldText(fr, rest)), not, ctx) == Ok(e, rest, false)
  {
    var text := FieldText(fr, rest);
    FieldParses(fr, rest, ctx);
    AfterConstantsIs(SetOf(TokensOf(list), list.Braced?, ctx), relop, text, FieldOf(fr, ctx).value, rest, e, not, ctx);
    ListParses(list, [Rel(relop)] + text, ctx);
  }

  lemma ConstantFirstSays(p: Phrase, not: bool, ctx: Ctx, env: Env) returns (e: Expr)
    requires SymbolsOk(ctx.tab) && p.ConstantFirst? && FieldComparable(p.field, p.relop, p.list, not, ctx)
    ensures MakeCmp(FieldOf(p.field, ctx).value, RelopTurn(p.relop),
                    SetOf(TokensOf(p.list), p.list.Braced?, ctx), not) == Some(e)
    ensures Says(e, not, env) == Denotes(p, ctx, env)
  {
    FieldIsOk(p.field, ctx);
    e := TurnedSays(FieldOf(p.field, ctx).value, p.relop, p.list, not, ctx, env);
  }

  lemma ConstantFirstParses(p: Phrase, rest: seq<Token>, not: bool, ctx: Ctx, env: Env)
    requires SymbolsOk(ctx.tab) && p.ConstantFirst? && FieldComparable(p.field, p.relop, p.list, not, ctx)
    requires EndsOperand(rest)
    ensures PrimaryTo(ParseConstantFirst(Text(p, rest), not, ctx), p, rest, not, ctx, env)
  {
    var e := ConstantFirstSays(p, not, ctx, env);
    ConstantFirstIs(p.list, p.relop, p.field, rest, e, not, ctx);
  }

  /** Constants, an operator, a field, an operator and constants. */
  lemma AfterBothIs(c1: ConstantSet, r1: Relop, text: seq<Token>, f: Field, r2: Relop, text2: seq<Token>,
      c2: ConstantSet, rest: seq<Token>, e1: Expr, e2: Expr, not: bool, ctx: Ctx)
    requires ParseField(text, ctx) == Some((f, [Rel(r2)] + text2))
    requires ParseConstantSet(text2, ctx) == Some((c2, rest)) && SameDirection(r1, r2)
    requires MakeCmp(f, RelopTurn(r1), c1, not) == Some(e1) && MakeCmp(f, r2, c2, not) == Some(e2)
    ensures AfterConstants(c1, [Rel(r1)] + text, not, ctx) == Ok(Combine(And, e1, e2), rest, false)
  {
    assert ([Rel(r1)] + text)[1..] == text;
    assert ([Rel(r2)] + text2)[1..] == text2;
  }

  /** A range. */
  lemma BetweenIs(p: Phrase, rest: seq<Token>, e1: Expr, e2: Expr, not: bool, ctx: Ctx)
    requires p.Between? && FieldOf(p.field, ctx).Some? && ListOk(p.list, ctx) && ListOk(p.list2, ctx)
    requires SameDirection(p.relop, p.relop2)
    requires MakeCmp(FieldOf(p.field, ctx).value, RelopTurn(p.relop),
                     SetOf(TokensOf(p.list), p.list.Braced?, ctx), not) == Some(e1)
    requires MakeCmp(FieldOf(p.field, ctx).value, p.relop2,
                     SetOf(TokensOf(p.list2), p.list2.Braced?, ctx), not) == Some(e2)
    ensures ParseConstantFirst(Text(p, rest), not, ctx) == Ok(Combine(And, e1, e2), rest, false)
  {
    var c1, c2 := SetOf(TokensOf(p.list), p.list.Braced?, ctx), SetOf(TokensOf(p.list2), p.list2.Braced?, ctx);
    var text2 := ListText(p.list2, rest);
    var text := FieldText(p.field, [Rel(p.relop2)] + text2);
    ListParses(p.list2, rest, ctx);
    FieldParses(p.field, [Rel(p.relop2)] + text2, ctx);
    AfterBothIs(c1, p.relop, text, FieldOf(p.field, ctx).value, p.relop2, text2, c2, rest, e1, e2, not, ctx);
    ListParses(p.list, [Rel(p.relop)] + text, ctx);
  }

  lemma BetweenSays(p: Phrase, not: bool, ctx: Ctx, env: Env) returns (e1: Expr, e2: Expr)
    requires SymbolsOk(ctx.tab) && p.Between?
    requires FieldComparable(p.field, p.relop, p.list, not, ctx)
    requires FieldComparable(p.field, p.relop2, p.list2, not, ctx)
    ensures MakeCmp(FieldOf(p.field, ctx).value, RelopTurn(p.relop),
                    SetOf(TokensOf(p.list), p.list.Braced?, ctx), not) == Some(e1)
    ensures MakeCmp(FieldOf(p.field, ctx).value, p.relop2,
                    SetOf(TokensOf(p.list2), p.list2.Braced?, ctx), not) == Some(e2)
    ensures Says(Combine(And, e1, e2), not, env) == Denotes(p, ctx, env)
  {
    FieldIsOk(p.field, ctx);
    e1 := TurnedSays(FieldOf(p.field, ctx).value, p.relop, p.list, not, ctx, env);
    e2 := ListSays(FieldOf(p.field, ctx).value, p.relop2, p.list2, not, ctx, env);
    SaysCombine(And, e1, e2, not, env);
  }

  lemma BetweenParses(p: Phrase, rest: seq<Token>, not: bool, ctx: Ctx, env: Env)
    requires SymbolsOk(ctx.tab) && p.Between? && SameDirection(p.relop, p.relop2)
    requires FieldComparable(p.field, p.relop, p.list, not, ctx)
    requires FieldComparable(p.field, p.relop2, p.list2, not, ctx)
    ensures PrimaryTo(ParseConstantFirst(Text(p, rest), not, ctx), p, rest, not, ctx, env)
  {
    var e1, e2 := BetweenSays(p, not, ctx, env);
    BetweenIs(p, rest, e1, e2, not, ctx);
  }

  lemma TruthParses(token: Token, rest: seq<Token>, not: bool, ctx: Ctx, env: Env)
    requires IsTruth(token, ctx) && EndsOperand(rest)
    ensures PrimaryTo(ParseConstantFirst([token] + rest, not, ctx), Truth(token), rest, not, ctx, env)
  {
    SingleParses(token, rest, ctx);
    SingleNumbers(token, ctx);
  }

  lemma ListHead(list: ConstantList, rest: seq<Token>, ctx: Ctx)
    requires ListOk(list, ctx)
    ensures var t := ListText(list, rest)[0]; !t.Id? && t != LParen && t != LogNot
  {
    if list.Single? {
      assert list.token in TokensOf(list);
    }
  }
}
