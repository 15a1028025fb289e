/** Formatting an expression and parsing the result. */
module RoundTrip {
  import opened Util
  import opened Bits
  import opened Expressions
  import opened Simplification
  import opened Annotation
  import opened Tokens
  import opened Parsing
  import opened ParseResults
  import opened Formatting

  /** No symbol is wider than a field value can be. */
  const MAX_WIDTH: nat := 1024

  predicate TableFits(tab: Table) {
    SymbolsOk(tab) && forall name :: name in tab ==> tab[name].sym.width <= MAX_WIDTH
  }

  /** What may follow an operand. */
  predicate Stop(ts: seq<Token>) {
    ts == [] || ts[0] == RParen || ts[0].Logic?
  }

  // ----- which expressions can be read back

  /** A comparison of a nominal symbol has to be of the whole symbol, for equality
    * and of several bits, and of a nominal predicate has to be positive; "<" and
    * so on need an ordinal field and a contiguous mask. */
  predicate CmpPrintable(sym: Symbol, relop: Relop, cst: Constant, tab: Table)
    requires sym.name in tab
  {
    match cst
    case Str(_) => relop == EQ
    case Num(value, mask) =>
      var n := FindRange(mask, sym.width).1;
      if IsBitTest(sym, relop, cst) then
        sym.level == Nominal ==> sym.width == 1 && (BitPositive(sym, relop, cst) <==> tab[sym.name].expansion.Some?)
      else
        && (IsRelational(relop) ==> sym.level == Ordinal && n > 0)
        && (sym.level == Nominal ==>
              && (n == 0 || n == sym.width)
              && if tab[sym.name].expansion.Some? then Positive(relop, cst) else relop == EQ)
  }

  /** 'depth' parentheses are open around 'e'. */
  predicate Printable(e: Expr, depth: nat, tab: Table)
    requires Honors(e, tab)
    decreases e, 1
  {
    match e
    case Cmp(sym, relop, cst) => CmpPrintable(sym, relop, cst, tab)
    case AndOr(_, subs) => AllPrintable(subs, depth, tab)
    case _ => true
  }

  predicate SubPrintable(e: Expr, depth: nat, tab: Table)
    requires Honors(e, tab)
    decreases e, 2
  {
    if e.AndOr? then depth < MAX_PAREN_DEPTH && Printable(e, depth + 1, tab) else Printable(e, depth, tab)
  }

  predicate AllPrintable(es: seq<Expr>, depth: nat, tab: Table)
    requires forall e :: e in es ==> Honors(e, tab)
    decreases es, 0
  {
    es != [] ==> SubPrintable(es[0], depth, tab) && AllPrintable(es[1..], depth, tab)
  }

  // ----- fields

  lemma WholeField(info: Info, tail: seq<Token>, ctx: Ctx)
    requires info.sym.name in ctx.tab && ctx.tab[info.sym.name] == info && !Next(tail, LSquare)
    ensures ParseField([Id(info.sym.name)] + tail, ctx) == Some((Field(info, 0, info.sym.width), tail))
  {
    var ts := [Id(info.sym.name)] + tail;
    assert ts[1..] == tail;
  }

  lemma RangeBack(ofs: nat, n: nat, tail: seq<Token>)
    requires n > 0 && ofs + n <= MAX_WIDTH
    ensures ParseRange(FormatRange(ofs, n)[1..] + tail) == Some((ofs, ofs + n - 1, tail))
  {
    var ts := FormatRange(ofs, n)[1..] + tail;
    assert ts[0] == Int(ofs, Decimal);
    var rest := ts[1..];
    if n > 1 {
      assert rest[0] == Ellipsis && rest[1] == Int(ofs + n - 1, Decimal) && rest[2] == RSquare;
      assert rest[3..] == tail;
    } else {
      assert rest[0] == RSquare && rest[1..] == tail;
    }
  }

  /** Part of a nominal symbol cannot be selected. */
  lemma PartField(info: Info, ofs: nat, n: nat, tail: seq<Token>, ctx: Ctx)
    requires info.sym.name in ctx.tab && ctx.tab[info.sym.name] == info && n > 0
    requires ofs + n <= info.sym.width <= MAX_WIDTH
    ensures ParseField([Id(info.sym.name)] + FormatRange(ofs, n) + tail, ctx) ==
            if info.sym.level == Nominal && n != info.sym.width then None else Some((Field(info, ofs, n), tail))
  {
    var ts := [Id(info.sym.name)] + FormatRange(ofs, n) + tail;
    assert ts[1..][0] == LSquare && ts[2..] == FormatRange(ofs, n)[1..] + tail;
    RangeBack(ofs, n, tail);
  }

  /** The field of a comparison with bits [ofs, ofs + n), or all of the symbol. */
  function FormatField(sym: Symbol, ofs: nat, n: nat): (r: seq<Token>) {
    [Id(sym.name)] + if 0 < n < sym.width then FormatRange(ofs, n) else []
  }

  lemma FieldBack(info: Info, ofs: nat, n: nat, tail: seq<Token>, ctx: Ctx)
    requires info.sym.name in ctx.tab && ctx.tab[info.sym.name] == info && info.sym.width <= MAX_WIDTH
    requires ofs + n <= info.sym.width && (n == 0 ==> ofs == 0) && !Next(tail, LSquare)
    ensures ParseField(FormatField(info.sym, ofs, n) + tail, ctx) ==
            if 0 < n < info.sym.width then
              if info.sym.level == Nominal then None else Some((Field(info, ofs, n), tail))
            else Some((Field(info, 0, info.sym.width), tail))
  {
    if 0 < n < info.sym.width {
      PartField(info, ofs, n, tail, ctx);
    } else {
      assert FormatField(info.sym, ofs, n) + tail == [Id(info.sym.name)] + tail;
      WholeField(info, tail, ctx);
    }
  }

  // ----- constants

  lemma OneConstant(t: Token, rest: seq<Token>, ctx: Ctx)
    requires t.Int? || t.MaskedInt? || t.LitStr?
    ensures ParseConstantSet([t] + rest, ctx) == Some((AddToken(Numbers([], false), t, ctx).value, rest))
  {
    var ts := [t] + rest;
    assert ts[0] == t && ts[1..] == rest;
  }

  lemma OneCmp(f: Field, r: Relop, w: Written, not: bool)
    ensures MakeCmp(f, r, Numbers([w], false), not) ==
            if f.info.sym.width > 0 && !TooWide(w, f.info.sym.width)
               && (IsRelational(r) ==> f.info.sym.level == Ordinal && w.mask.None?)
               && (f.info.sym.level == Nominal ==>
                     if f.info.expansion.Some? then TestsPositively(r, w, not) else r == if not then NE else EQ)
            then Some(NumberCmp(f, r, w)) else None
  {
    var cs := Numbers([w], false);
    assert w in cs.nums;
    assert Cmps(f, r, cs) == [NumberCmp(f, r, w)];
  }

  // ----- comparisons

  /** How the constant of a numeric comparison is written. */
  function WrittenBack(sym: Symbol, cst: Constant): (w: Written)
    requires cst.Num?
  {
    var (ofs, n) := FindRange(cst.mask, sym.width);
    if n > 0 then Written(Extract(cst.value, ofs, n), None, Hexadecimal)
    else Written(cst.value, Some(cst.mask), Hexadecimal)
  }

  function ConstantToken(sym: Symbol, cst: Constant): (t: Token)
    requires cst.Num?
  {
    var (ofs, n) := FindRange(cst.mask, sym.width);
    if n > 0 then Int(Number(Extract(cst.value, ofs, n), n), Hexadecimal)
    else MaskedInt(Number(cst.value, sym.width), Number(cst.mask, sym.width), Hexadecimal)
  }

  lemma TokenBack(sym: Symbol, cst: Constant, rest: seq<Token>, ctx: Ctx)
    requires cst.Num? && cst.value <= cst.mask <= Range(0, sym.width)
    ensures ParseConstantSet([ConstantToken(sym, cst)] + rest, ctx) ==
              Some((Numbers([WrittenBack(sym, cst)], false), rest))
  {
    var (ofs, n) := FindRange(cst.mask, sym.width);
    OneConstant(ConstantToken(sym, cst), rest, ctx);
    assert [] + [WrittenBack(sym, cst)] == [WrittenBack(sym, cst)];
    if n > 0 {
      assert Extract(cst.value, ofs, n) <= Range(0, n);
      BitsOfNumber(Extract(cst.value, ofs, n), n);
    } else {
      BitsOfNumber(cst.value, sym.width);
      BitsOfNumber(cst.mask, sym.width);
    }
  }

  /** The bits come back to where they were. */
  lemma BitsBack(info: Info, cst: Constant, relop: Relop)
    requires cst.Num? && cst.value <= cst.mask <= Range(0, info.sym.width) && info.sym.width > 0
    ensures var (ofs, n) := FindRange(cst.mask, info.sym.width);
            var f := if 0 < n < info.sym.width then Field(info, ofs, n) else Field(info, 0, info.sym.width);
            && ofs + n <= info.sym.width && (n == 0 ==> ofs == 0)
            && NumberCmp(f, relop, WrittenBack(info.sym, cst)) == Cmp(info.sym, relop, cst)
            && !TooWide(WrittenBack(info.sym, cst), info.sym.width)
  {
    var (ofs, n) := FindRange(cst.mask, info.sym.width);
    FindRangeExact(cst.mask, info.sym.width);
    var f := if 0 < n < info.sym.width then Field(info, ofs, n) else Field(info, 0, info.sym.width);
    if n > 0 {
      assert cst.mask == Range(ofs, ofs + n);
      assert n == info.sym.width ==> ofs == 0;
      assert CopyBits(Extract(cst.value, ofs, n), f.ofs, f.n) == cst.value;
      assert Extract(cst.value, ofs, n) <= Range(0, info.sym.width);
    } else {
      assert CopyBits(cst.value, 0, info.sym.width) == cst.value;
      assert CopyBits(cst.mask, 0, info.sym.width) == cst.mask;
    }
  }

  /** 'r' is 'e' followed by 'rest', or an error if 'fine' is false. */
  predicate ReadsBack(r: Parsed, fine: bool, e: Expr, rest: seq<Token>) {
    if fine then r.Ok? && r.e == e && r.rest == rest else r.Err?
  }

  lemma StartsWithField(ts: seq<Token>, depth: nat, ctx: Ctx)
    requires |ts| >= 1 && ts[0].Id? && !Next(ts[1..], LParen)
    ensures ParseNot(ts, false, depth, ctx) == ParseFieldFirst(ts, false, ctx)
  {
  }

  lemma FieldThenConstant(ts: seq<Token>, f: Field, tail: seq<Token>, cs: ConstantSet, rest: seq<Token>, ctx: Ctx)
    requires ParseField(ts, ctx) == Some((f, tail)) && tail != [] && tail[0].Rel?
    requires ParseConstantSet(tail[1..], ctx) == Some((cs, rest))
    ensures var e := MakeCmp(f, tail[0].relop, cs, false);
            ParseFieldFirst(ts, false, ctx) == if e.Some? then Ok(e.value, rest, false) else Err
  {
  }

  lemma StringTokens(sym: Symbol, relop: Relop, name: string, rest: seq<Token>)
    ensures var tail := [Rel(relop), LitStr(name)] + rest;
            && FormatCmp(sym, relop, Str(name)) + rest == [Id(sym.name)] + tail
            && ([Id(sym.name)] + tail)[1..] == tail && tail[1..] == [LitStr(name)] + rest
  {
  }

  lemma StringBack(sym: Symbol, relop: Relop, name: string, rest: seq<Token>, depth: nat, ctx: Ctx)
    requires TableFits(ctx.tab) && HonorsCmp(sym, Str(name), ctx.tab)
    ensures ReadsBack(ParseNot(FormatCmp(sym, relop, Str(name)) + rest, false, depth, ctx), relop == EQ,
                      Cmp(sym, relop, Str(name)), rest)
  {
    var info := ctx.tab[sym.name];
    var tail := [Rel(relop), LitStr(name)] + rest;
    var ts := [Id(sym.name)] + tail;
    StringTokens(sym, relop, name, rest);
    StartsWithField(ts, depth, ctx);
    WholeField(info, tail, ctx);
    OneConstant(LitStr(name), rest, ctx);
    FieldThenConstant(ts, Field(info, 0, sym.width), tail, Strings([name], false), rest, ctx);
    OneString(Field(info, 0, sym.width), relop, name);
  }

  lemma OneString(f: Field, relop: Relop, name: string)
    requires f.info.sym.width == 0 && f.info.sym.level == Nominal && f.info.expansion.None?
    ensures MakeCmp(f, relop, Strings([name], false), false) ==
            if relop == EQ then Some(StringCmp(f, relop, name)) else None
  {
    var cs := Strings([name], false);
    assert Cmps(f, relop, cs) == [StringCmp(f, relop, name)];
  }

  /** How a comparison that is printed with an operator starts. */
  lemma NumberTokens(sym: Symbol, relop: Relop, cst: Constant, rest: seq<Token>)
    requires cst.Num? && !IsBitTest(sym, relop, cst)
    ensures var (ofs, n) := FindRange(cst.mask, sym.width);
            var tail := [Rel(relop), ConstantToken(sym, cst)] + rest;
            var ts := FormatCmp(sym, relop, cst) + rest;
            && ts == FormatField(sym, ofs, n) + tail && ts[0] == Id(sym.name) && !Next(ts[1..], LParen)
            && tail[1..] == [ConstantToken(sym, cst)] + rest
  {
    var (ofs, n) := FindRange(cst.mask, sym.width);
    var field, op := FormatField(sym, ofs, n), [Rel(relop), ConstantToken(sym, cst)];
    assert FormatCmp(sym, relop, cst) == field + op;
    assert field + op + rest == field + (op + rest);
    assert op + rest == [Rel(relop)] + ([ConstantToken(sym, cst)] + rest);
    var ts := field + (op + rest);
    assert ts[0] == Id(sym.name);
    assert ts[1] == if 0 < n < sym.width then LSquare else Rel(relop);
  }

  /** A predicate's constant is written as it is. */
  lemma WrittenLow(sym: Symbol, cst: Constant)
    requires cst.Num? && cst.value <= cst.mask <= Range(0, sym.width)
    ensures sym.width == 1 ==> (0 in WrittenBack(sym, cst).value <==> 0 in cst.value)
  {
    FindRangeExact(cst.mask, sym.width);
  }

  lemma NumberAccepted(sym: Symbol, relop: Relop, cst: Constant, f: Field, tab: Table)
    requires TableFits(tab) && HonorsCmp(sym, cst, tab) && cst.Num? && !IsBitTest(sym, relop, cst)
    requires var (ofs, n) := FindRange(cst.mask, sym.width);
             f == if 0 < n < sym.width then Field(tab[sym.name], ofs, n) else Field(tab[sym.name], 0, sym.width)
    requires var n := FindRange(cst.mask, sym.width).1; 0 < n < sym.width ==> sym.level != Nominal
    ensures MakeCmp(f, relop, Numbers([WrittenBack(sym, cst)], false), false) ==
            if CmpPrintable(sym, relop, cst, tab) then Some(Cmp(sym, relop, cst)) else None
  {
    BitsBack(tab[sym.name], cst, relop);
    OneCmp(f, relop, WrittenBack(sym, cst), false);
    WrittenLow(sym, cst);
  }

  /** The comparisons that are printed with an operator. */
  lemma NumberBack(sym: Symbol, relop: Relop, cst: Constant, rest: seq<Token>, depth: nat, ctx: Ctx)
    requires TableFits(ctx.tab) && HonorsCmp(sym, cst, ctx.tab) && cst.Num? && !IsBitTest(sym, relop, cst)
    ensures ReadsBack(ParseNot(FormatCmp(sym, relop, cst) + rest, false, depth, ctx),
                      CmpPrintable(sym, relop, cst, ctx.tab), Cmp(sym, relop, cst), rest)
  {
    var info := ctx.tab[sym.name];
    var (ofs, n) := FindRange(cst.mask, sym.width);
    BitsBack(info, cst, relop);
    NumberTokens(sym, relop, cst, rest);
    var tail := [Rel(relop), ConstantToken(sym, cst)] + rest;
    var ts := FormatCmp(sym, relop, cst) + rest;
    StartsWithField(ts, depth, ctx);
    FieldBack(info, ofs, n, tail, ctx);
    if 0 < n < sym.width && sym.level == Nominal {
      assert ParseFieldFirst(ts, false, ctx) == Err;
      assert !CmpPrintable(sym, relop, cst, ctx.tab);
    } else {
      var f := if 0 < n < sym.width then Field(info, ofs, n) else Field(info, 0, sym.width);
      TokenBack(sym, cst, rest, ctx);
      FieldThenConstant(ts, f, tail, Numbers([WrittenBack(sym, cst)], false), rest, ctx);
      NumberAccepted(sym, relop, cst, f, ctx.tab);
    }
  }

  // ----- tests of one bit

  /** A field by itself is a test that it is not 0. */
  lemma BareField(ts: seq<Token>, f: Field, rest: seq<Token>, not: bool, ctx: Ctx)
    requires ParseField(ts, ctx) == Some((f, rest)) && Stop(rest) && f.n == 1
    ensures var w := Written({}, None, Hexadecimal);
            var e := MakeCmp(f, NE, Numbers([w], false), not);
            ParseFieldFirst(ts, not, ctx) == if e.Some? then Ok(e.value, rest, true) else Err
  {
  }

  /** What the test of a bit is read as, before a "!" in front of it counts. */
  lemma BitAccepted(info: Info, ofs: nat, not: bool)
    requires info.sym.width > 0 && ofs < info.sym.width
    requires info.sym.level == Nominal ==> info.sym.width == 1
    ensures MakeCmp(Field(info, ofs, 1), NE, Numbers([Written({}, None, Hexadecimal)], false), not) ==
            if info.sym.level == Nominal && (info.expansion.Some? <==> not) then None
            else Some(Cmp(info.sym, NE, Num({}, Range(ofs, ofs + 1))))
  {
    var f, w := Field(info, ofs, 1), Written({}, None, Hexadecimal);
    assert CopyBits(w.value, ofs, 1) == {};
    assert NumberCmp(f, NE, w) == Cmp(info.sym, NE, Num({}, Range(ofs, ofs + 1)));
    assert !TooWide(w, info.sym.width);
    assert TestsPositively(NE, w, not) == !not;
    OneCmp(f, NE, w, not);
  }

  lemma BitField(info: Info, ofs: nat, rest: seq<Token>, ctx: Ctx)
    requires info.sym.name in ctx.tab && ctx.tab[info.sym.name] == info && ofs < info.sym.width <= MAX_WIDTH
    requires Stop(rest)
    ensures var ts := FormatField(info.sym, ofs, 1) + rest;
            && ts[0] == Id(info.sym.name) && !Next(ts[1..], LParen)
            && ParseField(ts, ctx) ==
               if info.sym.width > 1 && info.sym.level == Nominal then None else Some((Field(info, ofs, 1), rest))
  {
    FieldBack(info, ofs, 1, rest, ctx);
  }

  lemma BitTokens(sym: Symbol, relop: Relop, cst: Constant, rest: seq<Token>)
    requires cst.Num? && IsBitTest(sym, relop, cst)
    ensures var ts := FormatField(sym, FindRange(cst.mask, sym.width).0, 1) + rest;
            FormatCmp(sym, relop, cst) + rest == if BitPositive(sym, relop, cst) then ts else [LogNot] + ts
  {
  }

  /** A field by itself, with "!" in front of it or not. */
  lemma PerhapsNot(ts: seq<Token>, not: bool, depth: nat, ctx: Ctx)
    requires |ts| >= 1 && ts[0].Id? && !Next(ts[1..], LParen)
    ensures var r := ParseFieldFirst(ts, not, ctx);
            ParseNot(if not then [LogNot] + ts else ts, false, depth, ctx) ==
            if !not then r else if r.Ok? && r.atomic then Ok(Not(r.e), r.rest, true) else Err
  {
    assert ([LogNot] + ts)[1..] == ts;
  }

  /** What is read for the field of a bit test. */
  lemma BitRead(info: Info, ofs: nat, not: bool, rest: seq<Token>, ctx: Ctx)
    requires info.sym.name in ctx.tab && ctx.tab[info.sym.name] == info && ofs < info.sym.width <= MAX_WIDTH
    requires Stop(rest)
    ensures ParseFieldFirst(FormatField(info.sym, ofs, 1) + rest, not, ctx) ==
            if info.sym.level == Nominal && (info.sym.width > 1 || (info.expansion.Some? <==> not)) then Err
            else Ok(Cmp(info.sym, NE, Num({}, Range(ofs, ofs + 1))), rest, true)
  {
    var ts := FormatField(info.sym, ofs, 1) + rest;
    BitField(info, ofs, rest, ctx);
    if !(info.sym.width > 1 && info.sym.level == Nominal) {
      BareField(ts, Field(info, ofs, 1), rest, not, ctx);
      BitAccepted(info, ofs, not);
    }
  }

  /** And with a "!" in front of it, if 'not'. */
  lemma BitReadNot(info: Info, ofs: nat, not: bool, rest: seq<Token>, depth: nat, ctx: Ctx, all: seq<Token>)
    requires info.sym.name in ctx.tab && ctx.tab[info.sym.name] == info && ofs < info.sym.width <= MAX_WIDTH
    requires Stop(rest)
    requires var ts := FormatField(info.sym, ofs, 1) + rest; all == if not then [LogNot] + ts else ts
    ensures ReadsBack(ParseNot(all, false, depth, ctx), BitFine(info, not), BitCmp(info.sym, ofs, not), rest)
  {
    BitField(info, ofs, rest, ctx);
    PerhapsNot(FormatField(info.sym, ofs, 1) + rest, not, depth, ctx);
    BitRead(info, ofs, not, rest, ctx);
  }

  predicate BitFine(info: Info, not: bool) {
    !(info.sym.level == Nominal && (info.sym.width > 1 || (info.expansion.Some? <==> not)))
  }

  function BitCmp(sym: Symbol, ofs: nat, not: bool): (r: Expr) {
    Cmp(sym, if not then EQ else NE, Num({}, Range(ofs, ofs + 1)))
  }

  /** When the test of a bit can be read back, and as what. */
  lemma BitPrintable(sym: Symbol, relop: Relop, cst: Constant, tab: Table)
    requires HonorsCmp(sym, cst, tab) && cst.Num? && IsBitTest(sym, relop, cst)
    ensures var ofs := FindRange(cst.mask, sym.width).0;
            var not := !BitPositive(sym, relop, cst);
            && ofs < sym.width
            && CmpPrintable(sym, relop, cst, tab) == BitFine(tab[sym.name], not)
            && CanonCmp(sym, relop, cst) == BitCmp(sym, ofs, not)
  {
    FindRangeExact(cst.mask, sym.width);
  }

  lemma BitBack(sym: Symbol, relop: Relop, cst: Constant, rest: seq<Token>, depth: nat, ctx: Ctx)
    requires TableFits(ctx.tab) && HonorsCmp(sym, cst, ctx.tab) && cst.Num? && IsBitTest(sym, relop, cst) && Stop(rest)
    ensures ReadsBack(ParseNot(FormatCmp(sym, relop, cst) + rest, false, depth, ctx),
                      CmpPrintable(sym, relop, cst, ctx.tab), CanonCmp(sym, relop, cst), rest)
  {
    var ofs, not := FindRange(cst.mask, sym.width).0, !BitPositive(sym, relop, cst);
    BitPrintable(sym, relop, cst, ctx.tab);
    BitTokens(sym, relop, cst, rest);
    BitReadNot(ctx.tab[sym.name], ofs, not, rest, depth, ctx, FormatCmp(sym, relop, cst) + rest);
  }

  /** Any comparison. */
  lemma CmpBack(sym: Symbol, relop: Relop, cst: Constant, rest: seq<Token>, depth: nat, ctx: Ctx)
    requires TableFits(ctx.tab) && HonorsCmp(sym, cst, ctx.tab) && Stop(rest)
    ensures ReadsBack(ParseNot(FormatCmp(sym, relop, cst) + rest, false, depth, ctx),
                      CmpPrintable(sym, relop, cst, ctx.tab), CanonCmp(sym, relop, cst), rest)
  {
    if cst.Str? {
      StringBack(sym, relop, cst.name, rest, depth, ctx);
    } else if IsBitTest(sym, relop, cst) {
      BitBack(sym, relop, cst, rest, depth, ctx);
    } else {
      NumberBack(sym, relop, cst, rest, depth, ctx);
    }
  }

  // ----- expressions

  lemma BoolBack(b: bool, rest: seq<Token>, depth: nat, ctx: Ctx)
    requires Stop(rest)
    ensures ReadsBack(ParseNot(Format(Bool(b)) + rest, false, depth, ctx), true, Bool(b), rest)
  {
    assert BitsOf(0) == {} && BitsOf(1) == {0};
    var n: nat := if b then 1 else 0;
    NumberAlone(n, b, rest, depth, ctx);
  }

  /** A number by itself. */
  lemma NumberAlone(n: nat, b: bool, rest: seq<Token>, depth: nat, ctx: Ctx)
    requires Stop(rest) && BitsOf(n) == if b then {0} else {}
    ensures ReadsBack(ParseNot([Int(n, Decimal)] + rest, false, depth, ctx), true, Bool(b), rest)
  {
    OneConstant(Int(n, Decimal), rest, ctx);
    var cs := AddToken(Numbers([], false), Int(n, Decimal), ctx).value;
    assert cs.nums == [Written(BitsOf(n), None, Decimal)];
  }

  /** An operand with "!" in front of it or not. */
  lemma PerhapsNotPrimary(ts: seq<Token>, not: bool, depth: nat, ctx: Ctx)
    requires ts != [] && ts[0] != LogNot
    ensures var r := ParsePrimary(ts, not, depth, ctx);
            ParseNot(if not then [LogNot] + ts else ts, false, depth, ctx) ==
            if !not then r else if r.Ok? && r.atomic then Ok(Not(r.e), r.rest, true) else Err
  {
    assert ([LogNot] + ts)[1..] == ts;
  }

  lemma ResidentRead(ts: seq<Token>, port: string, rest: seq<Token>, not: bool, depth: nat, ctx: Ctx)
    requires ts == [Id(FUNCTION_NAME), LParen, LitStr(port), RParen] + rest
    ensures ParsePrimary(ts, not, depth, ctx) == Ok(Cond(false, port), rest, true)
  {
    var inner := ts[2..];
    assert ts[1..][0] == LParen;
    assert inner[0] == LitStr(port) && inner[1..][0] == RParen && inner[2..] == rest;
    assert ParseResident(inner) == Ok(Cond(false, port), rest, true);
  }

  lemma CondBack(not: bool, port: string, rest: seq<Token>, depth: nat, ctx: Ctx)
    ensures ReadsBack(ParseNot(FormatCond(not, port) + rest, false, depth, ctx), true, Cond(not, port), rest)
  {
    var ts := [Id(FUNCTION_NAME), LParen, LitStr(port), RParen] + rest;
    assert FormatCond(not, port) + rest == if not then [LogNot] + ts else ts;
    ResidentRead(ts, port, rest, not, depth, ctx);
    PerhapsNotPrimary(ts, not, depth, ctx);
  }

  /** In parentheses. */
  lemma ParenBack(ts: seq<Token>, e: Expr, rest: seq<Token>, depth: nat, ctx: Ctx, fine: bool)
    requires depth < MAX_PAREN_DEPTH ==>
               ReadsBack(ParseExpr(ts + ([RParen] + rest), false, depth + 1, ctx), fine, e, [RParen] + rest)
    ensures ReadsBack(ParseNot([LParen] + ts + [RParen] + rest, false, depth, ctx),
                      depth < MAX_PAREN_DEPTH && fine, e, rest)
  {
    var all := [LParen] + ts + [RParen] + rest;
    assert all[1..] == ts + ([RParen] + rest);
    assert ([RParen] + rest)[1..] == rest;
  }

  /** An expression without AND or OR. */
  lemma UnitBack(e: Expr, rest: seq<Token>, depth: nat, ctx: Ctx)
    requires TableFits(ctx.tab) && Honors(e, ctx.tab) && Stop(rest) && !e.AndOr?
    ensures ReadsBack(ParseNot(Format(e) + rest, false, depth, ctx), Printable(e, depth, ctx.tab), Canon(e), rest)
  {
    match e
    case Cmp(sym, relop, cst) => CmpBack(sym, relop, cst, rest, depth, ctx);
    case Bool(b) => BoolBack(b, rest, depth, ctx);
    case Cond(not, port) => CondBack(not, port, rest, depth, ctx);
  }

  /** An operand of AND or OR. */
  lemma {:induction false} SubBack(e: Expr, rest: seq<Token>, depth: nat, ctx: Ctx)
    requires TableFits(ctx.tab) && Honors(e, ctx.tab) && Stop(rest)
    ensures ReadsBack(ParseNot(FormatSub(e) + rest, false, depth, ctx), SubPrintable(e, depth, ctx.tab), Canon(e), rest)
    decreases e, 2
  {
    if e.AndOr? {
      var fine := Printable(e, depth + 1, ctx.tab);
      if depth < MAX_PAREN_DEPTH {
        ExprBack(e, [RParen] + rest, depth + 1, ctx);
      }
      ParenBack(Format(e), Canon(e), rest, depth, ctx, fine);
    } else {
      UnitBack(e, rest, depth, ctx);
    }
  }

  ghost predicate Operands(op: Op, es: seq<Expr>, tab: Table) {
    forall e :: e in es ==> Honors(e, tab) && !(e.AndOr? && e.op == op)
  }

  lemma CanonSplice(op: Op, e: Expr)
    requires !(e.AndOr? && e.op == op)
    ensures Splice(op, Canon(e)) == [Canon(e)]
  {
  }

  /** One more operand, if 'rest' is what follows it. */
  lemma OperandsStep(op: Op, acc: Expr, ts: seq<Token>, e: Expr, rest: seq<Token>, depth: nat, ctx: Ctx, fine: bool)
    requires ReadsBack(ParseNot(ts, false, depth, ctx), fine, e, rest)
    requires (rest == [] || rest[0] == RParen || rest[0] == Logic(op))
    ensures ParseOperands(op, acc, ts, false, depth, ctx) ==
            if !fine then Err
            else if Next(rest, Logic(op)) then ParseOperands(op, Combine(op, acc, e), rest[1..], false, depth, ctx)
            else Ok(Combine(op, acc, e), rest, false)
  {
  }

  lemma ExprStep(ts: seq<Token>, e: Expr, rest: seq<Token>, depth: nat, ctx: Ctx, fine: bool)
    requires ReadsBack(ParseNot(ts, false, depth, ctx), fine, e, rest) && Stop(rest)
    ensures ParseExpr(ts, false, depth, ctx) ==
            if !fine then Err
            else if rest != [] && rest[0].Logic? then ParseOperands(rest[0].op, e, rest[1..], false, depth, ctx)
            else Ok(e, rest, false)
  {
  }

  lemma MorePrintable(es: seq<Expr>, depth: nat, tab: Table)
    requires es != [] && forall e :: e in es ==> Honors(e, tab)
    ensures AllPrintable(es, depth, tab) <==> SubPrintable(es[0], depth, tab) && AllPrintable(es[1..], depth, tab)
  {
  }

  /** How several operands start. */
  lemma SubsTokens(op: Op, es: seq<Expr>, rest: seq<Token>)
    requires |es| >= 2
    ensures var next := [Logic(op)] + (FormatSubs(op, es[1..]) + rest);
            && FormatSubs(op, es) + rest == FormatSub(es[0]) + next
            && next[1..] == FormatSubs(op, es[1..]) + rest
  {
  }

  lemma SpliceMore(op: Op, acc: Expr, es: seq<Expr>)
    requires es != [] && !(es[0].AndOr? && es[0].op == op)
    ensures Combine(op, acc, Canon(es[0])) == AndOr(op, Splice(op, acc) + [Canon(es[0])])
    ensures Splice(op, acc) + [Canon(es[0])] + CanonAll(es[1..]) == Splice(op, acc) + CanonAll(es)
  {
    CanonSplice(op, es[0]);
    var a, c, cs := Splice(op, acc), Canon(es[0]), CanonAll(es[1..]);
    assert CanonAll(es) == [c] + cs;
    assert a + [c] + cs == a + ([c] + cs);
  }

  /** The operands after the first one. */
  lemma {:induction false} OperandsBack(op: Op, acc: Expr, es: seq<Expr>, rest: seq<Token>, depth: nat, ctx: Ctx)
    requires TableFits(ctx.tab) && es != [] && Operands(op, es, ctx.tab) && (rest == [] || rest[0] == RParen)
    ensures ReadsBack(ParseOperands(op, acc, FormatSubs(op, es) + rest, false, depth, ctx),
                      AllPrintable(es, depth, ctx.tab), AndOr(op, Splice(op, acc) + CanonAll(es)), rest)
    decreases es, 0
  {
    var first, others := es[0], es[1..];
    assert first in es;
    MorePrintable(es, depth, ctx.tab);
    SpliceMore(op, acc, es);
    var fine := SubPrintable(first, depth, ctx.tab);
    if others == [] {
      assert FormatSubs(op, es) == FormatSub(first) && CanonAll(others) == [];
      SubBack(first, rest, depth, ctx);
      OperandsStep(op, acc, FormatSub(first) + rest, Canon(first), rest, depth, ctx, fine);
    } else {
      var next := [Logic(op)] + (FormatSubs(op, others) + rest);
      SubsTokens(op, es, rest);
      SubBack(first, next, depth, ctx);
      OperandsStep(op, acc, FormatSub(first) + next, Canon(first), next, depth, ctx, fine);
      if fine {
        OperandsBack(op, Combine(op, acc, Canon(first)), others, rest, depth, ctx);
      }
    }
  }

  lemma {:induction false} ExprBack(e: Expr, rest: seq<Token>, depth: nat, ctx: Ctx)
    requires TableFits(ctx.tab) && Honors(e, ctx.tab) && e.AndOr? && (rest == [] || rest[0] == RParen)
    ensures ReadsBack(ParseExpr(Format(e) + rest, false, depth, ctx), Printable(e, depth, ctx.tab), Canon(e), rest)
    decreases e, 1
  {
    var op, first, others := e.op, e.subs[0], e.subs[1..];
    assert first in e.subs;
    MorePrintable(e.subs, depth, ctx.tab);
    var fine := SubPrintable(first, depth, ctx.tab);
    var next := [Logic(op)] + (FormatSubs(op, others) + rest);
    SubsTokens(op, e.subs, rest);
    SubBack(first, next, depth, ctx);
    ExprStep(FormatSub(first) + next, Canon(first), next, depth, ctx, fine);
    if fine {
      OperandsBack(op, Canon(first), others, rest, depth, ctx);
      CanonSplice(op, first);
      assert CanonAll(e.subs) == [Canon(first)] + CanonAll(others);
    }
  }

  /** Formatting and parsing gives back an equivalent expression if and only if
    * the expression is printable; otherwise parsing fails. */
  lemma FormatThenParse(e: Expr, ctx: Ctx)
    requires TableFits(ctx.tab) && Honors(e, ctx.tab)
    ensures Parse(Format(e), ctx) == if Printable(e, 0, ctx.tab) then Some(Canon(e)) else None
  {
    assert Format(e) + [] == Format(e);
    if e.AndOr? {
      ExprBack(e, [], 0, ctx);
    } else {
      UnitBack(e, [], 0, ctx);
      ExprStep(Format(e), Canon(e), [], 0, ctx, Printable(e, 0, ctx.tab));
    }
  }
}
