/** The language of match expressions (lib/expr.c): how they are written, which of
  * them are accepted, and what they say about a packet. */
module Grammar {
  import opened Util
  import opened Bits
  import opened Expressions
  import opened Tokens
  import opened Parsing

  // ----- how expressions are written

  /** A field, one bit of it, or the bits from 'low' to 'high'. */
  datatype FieldRef = Whole(name: string) | OneBit(name: string, pos: nat) | Part(name: string, low: nat, high: nat)

  /** A constant inside curly brackets, and whether a comma follows it. */
  datatype Item = Item(token: Token, comma: bool)

  datatype ConstantList = Single(token: Token) | Braced(items: seq<Item>)

  datatype Phrase =
    | Truth(token: Token)
    | Bare(field: FieldRef)
    | FieldFirst(field: FieldRef, relop: Relop, list: ConstantList)
    | ConstantFirst(list: ConstantList, relop: Relop, field: FieldRef)
    | Between(list: ConstantList, relop: Relop, field: FieldRef, relop2: Relop, list2: ConstantList)
    | Resides(port: string)
    | Negated(p: Phrase)
    | Paren(p: Phrase)
    | Chain(op: Op, ps: seq<Phrase>)

  // In what follows, 'rest' is what comes after the text.

  function FieldText(f: FieldRef, rest: seq<Token>): (r: seq<Token>) {
    match f
    case Whole(name) => [Id(name)] + rest
    case OneBit(name, pos) => [Id(name), LSquare, Int(pos, Decimal), RSquare] + rest
    case Part(name, low, high) =>
      [Id(name), LSquare, Int(low, Decimal), Ellipsis, Int(high, Decimal), RSquare] + rest
  }

  function ItemsText(items: seq<Item>, rest: seq<Token>): (r: seq<Token>) {
    if items == [] then rest
    else if items[0].comma then [items[0].token, Comma] + ItemsText(items[1..], rest)
    else [items[0].token] + ItemsText(items[1..], rest)
  }

  function ListText(list: ConstantList, rest: seq<Token>): (r: seq<Token>) {
    match list
    case Single(token) => [token] + rest
    case Braced(items) => [LCurly] + ItemsText(items, [RCurly] + rest)
  }

  function Text(p: Phrase, rest: seq<Token>): (r: seq<Token>)
    decreases p, 1
  {
    match p
    case Truth(token) => [token] + rest
    case Bare(field) => FieldText(field, rest)
    case FieldFirst(field, relop, list) => FieldText(field, [Rel(relop)] + ListText(list, rest))
    case ConstantFirst(list, relop, field) => ListText(list, [Rel(relop)] + FieldText(field, rest))
    case Between(list, relop, field, relop2, list2) =>
      ListText(list, [Rel(relop)] + FieldText(field, [Rel(relop2)] + ListText(list2, rest)))
    case Resides(port) => [Id(FUNCTION_NAME), LParen, LitStr(port), RParen] + rest
    case Negated(q) => [LogNot] + Text(q, rest)
    case Paren(q) => [LParen] + Text(q, [RParen] + rest)
    case Chain(op, ps) => if ps == [] then rest else Text(ps[0], MoreText(op, ps[1..], rest))
  }

  function MoreText(op: Op, ps: seq<Phrase>, rest: seq<Token>): (r: seq<Token>)
    decreases ps, 0
  {
    if ps == [] then rest else [Logic(op)] + Text(ps[0], MoreText(op, ps[1..], rest))
  }

  // ----- constants

  predicate IsNumeric(t: Token) {
    t.Int? || t.MaskedInt? || t.Macro?
  }

  /** A constant, the name of an address set or the name of a port group. */
  predicate Known(t: Token, ctx: Ctx) {
    match t
    case Macro(name) => name in ctx.addrSets
    case PortGroup(name) => name in ctx.portGroups
    case _ => t.Int? || t.MaskedInt? || t.LitStr?
  }

  function NumbersOf(t: Token, ctx: Ctx): (r: seq<Written>) {
    match t
    case Int(n, format) => [Written(BitsOf(n), None, format)]
    case MaskedInt(n, mask, format) => [Written(BitsOf(n), Some(BitsOf(mask)), format)]
    case Macro(name) => if name in ctx.addrSets then ctx.addrSets[name] else []
    case _ => []
  }

  function NamesOf(t: Token, ctx: Ctx): (r: seq<string>) {
    match t
    case LitStr(s) => [s]
    case PortGroup(name) => if name in ctx.portGroups then ctx.portGroups[name] else []
    case _ => []
  }

  predicate IsNothing(t: Token, ctx: Ctx) {
    NumbersOf(t, ctx) == [] && NamesOf(t, ctx) == []
  }

  function TokensOf(list: ConstantList): (r: seq<Token>) {
    match list
    case Single(token) => [token]
    case Braced(items) => seq(|items|, i requires 0 <= i < |items| => items[i].token)
  }

  predicate AllKnown(ts: seq<Token>, ctx: Ctx) {
    forall t :: t in ts ==> Known(t, ctx)
  }

  /** After a constant, there are only constants of its type. */
  predicate Uniform(ts: seq<Token>, ctx: Ctx) {
    forall i, j :: 0 <= i < j < |ts| && !IsNothing(ts[i], ctx) ==> (IsNumeric(ts[i]) <==> IsNumeric(ts[j]))
  }

  predicate ListOk(list: ConstantList, ctx: Ctx) {
    var ts := TokensOf(list);
    ts != [] && AllKnown(ts, ctx) && Uniform(ts, ctx)
  }

  predicate IsNumericList(list: ConstantList) {
    var ts := TokensOf(list);
    ts != [] && IsNumeric(ts[|ts| - 1])
  }

  predicate HasNumber(list: ConstantList, c: Written, ctx: Ctx) {
    exists t :: t in TokensOf(list) && c in NumbersOf(t, ctx)
  }

  predicate HasName(list: ConstantList, name: string, ctx: Ctx) {
    exists t :: t in TokensOf(list) && name in NamesOf(t, ctx)
  }

  // ----- fields

  /** Positions are taken from the low 64 bits of a decimal number. */
  function Position(n: nat): (r: Option<nat>) {
    var low := n % 0x1_0000_0000_0000_0000;
    if low <= 0x7fff_ffff then Some(low) else None
  }

  /** A nominal field may be written with all of its bits only. */
  function BitsOfField(name: string, low: Option<nat>, high: Option<nat>, ctx: Ctx): (r: Option<Field>) {
    if name !in ctx.tab || low.None? || high.None? then None
    else
      var info := ctx.tab[name];
      var inside := low.value <= high.value < info.sym.width;
      var whole := low.value == 0 && high.value == info.sym.width - 1;
      if inside && (info.sym.level == Nominal ==> whole) then Some(Field(info, low.value, high.value - low.value + 1))
      else None
  }

  function FieldOf(f: FieldRef, ctx: Ctx): (r: Option<Field>) {
    match f
    case Whole(name) => if name in ctx.tab then Some(Field(ctx.tab[name], 0, ctx.tab[name].sym.width)) else None
    case OneBit(name, pos) => BitsOfField(name, Position(pos), Position(pos), ctx)
    case Part(name, low, high) => BitsOfField(name, Position(low), Position(high), ctx)
  }

  // ----- what is accepted

  /** An address takes its full width; a number takes its 1-bits, or its mask's. */
  predicate FitsIn(c: Written, width: nat) {
    if c.mask.Some? then forall i :: i in c.mask.value ==> i < width
    else match c.format
      case Ipv4 => width >= 32
      case Ipv6 => width >= 128
      case Ethernet => width >= 48
      case _ => forall i :: i in c.value ==> i < width
  }

  /** Strings go with string fields, and numbers that fit with the others. */
  ghost predicate TypesFit(f: Field, list: ConstantList, ctx: Ctx) {
    if f.info.sym.width == 0 then !IsNumericList(list)
    else IsNumericList(list) && forall c :: HasNumber(list, c, ctx) ==> FitsIn(c, f.info.sym.width)
  }

  /** A number without a mask, or an address set that starts with one. */
  predicate IsPlain(t: Token, ctx: Ctx) {
    var cs := NumbersOf(t, ctx);
    cs != [] && cs[0].mask.None?
  }

  predicate OrderFits(f: Field, relop: Relop, list: ConstantList, ctx: Ctx) {
    relop == EQ || relop == NE || (f.info.sym.level == Ordinal && list.Single? && IsPlain(list.token, ctx))
  }

  /** Inside an even number of "!", a nominal field is compared for equality and a
    * nominal predicate is asked to hold; inside an odd number ('not'), the other way
    * around. */
  ghost predicate PolarityFits(f: Field, relop: Relop, list: ConstantList, not: bool, ctx: Ctx) {
    if f.info.sym.level != Nominal then true
    else if f.info.expansion.Some? then
      IsNumericList(list) && forall c :: HasNumber(list, c, ctx) ==> (((relop == EQ) <==> 0 in c.value) <==> !not)
    else relop == if not then NE else EQ
  }

  ghost predicate Comparable(f: Field, relop: Relop, list: ConstantList, not: bool, ctx: Ctx) {
    && ListOk(list, ctx)
    && TypesFit(f, list, ctx)
    && OrderFits(f, relop, list, ctx)
    && PolarityFits(f, relop, list, not, ctx)
  }

  ghost predicate FieldComparable(fr: FieldRef, relop: Relop, list: ConstantList, not: bool, ctx: Ctx) {
    var f := FieldOf(fr, ctx);
    f.Some? && Comparable(f.value, relop, list, not, ctx)
  }

  /** One decimal number that is 0 or 1, going by its low 64 bits. */
  predicate IsTruth(t: Token, ctx: Ctx) {
    var cs := NumbersOf(t, ctx);
    && Known(t, ctx) && |cs| == 1 && cs[0].format == Decimal && cs[0].mask.None?
    && forall i :: i in cs[0].value ==> i == 0 || i >= 64
  }

  /** A field by itself has one bit, or more inside an odd number of "!". */
  predicate BareOk(fr: FieldRef, not: bool, ctx: Ctx) {
    var f := FieldOf(fr, ctx);
    && f.Some? && f.value.n > 0 && (f.value.n == 1 || not)
    && (f.value.info.sym.level == Nominal ==> (f.value.info.expansion.Some? <==> !not))
  }

  predicate IsLess(relop: Relop) {
    relop == LT || relop == LE
  }

  predicate IsGreater(relop: Relop) {
    relop == GT || relop == GE
  }

  /** What "!" may stand in front of. */
  predicate IsAtomic(p: Phrase) {
    p.Truth? || p.Bare? || p.Resides? || p.Paren?
  }

  /** 'not' is true inside an odd number of "!", and 'depth' counts parentheses. */
  ghost predicate Accepted(p: Phrase, not: bool, depth: nat, ctx: Ctx) {
    match p
    case Truth(token) => IsTruth(token, ctx)
    case Bare(field) => BareOk(field, not, ctx)
    case FieldFirst(field, relop, list) => FieldComparable(field, relop, list, not, ctx)
    case ConstantFirst(list, relop, field) => FieldComparable(field, relop, list, not, ctx)
    case Between(list, relop, field, relop2, list2) =>
      && ((IsLess(relop) && IsLess(relop2)) || (IsGreater(relop) && IsGreater(relop2)))
      && FieldComparable(field, relop, list, not, ctx) && FieldComparable(field, relop2, list2, not, ctx)
    case Resides(_) => true
    case Negated(q) => IsAtomic(q) && Accepted(q, !not, depth, ctx)
    case Paren(q) => depth < MAX_PAREN_DEPTH && Accepted(q, not, depth + 1, ctx)
    case Chain(_, ps) => |ps| >= 2 && forall q :: q in ps ==> !q.Chain? && Accepted(q, not, depth, ctx)
  }

  // ----- what it says

  predicate Relates(relop: Relop, x: int, y: int) {
    match relop
    case EQ => x == y
    case NE => x != y
    case LT => x < y
    case LE => x <= y
    case GT => x > y
    case GE => x >= y
  }

  /** The number in the field's bits, of which only those under the mask count. */
  function FieldNumber(f: Field, mask: Option<Bits>, env: Env): (r: nat) {
    var bits := Extract(env.pkt(f.info.sym), f.ofs, f.n);
    Number(if mask.Some? then bits * mask.value else bits, f.n)
  }

  /** The field's number stands in relation to the constant, of which only as many
    * bits count as the field has. */
  predicate NumberHolds(f: Field, relop: Relop, c: Written, env: Env) {
    Relates(relop, FieldNumber(f, c.mask, env), Number(c.value, f.n))
  }

  predicate NumberHoldsTurned(c: Written, relop: Relop, f: Field, env: Env) {
    Relates(relop, Number(c.value, f.n), FieldNumber(f, c.mask, env))
  }

  /** The port by that name is known, and the field holds its number. */
  predicate IsPort(f: Field, name: string, env: Env) {
    var port := env.lookup(name);
    port.Some? && Number(env.pkt(f.info.sym), PORT_BITS) == Number(port.value, PORT_BITS)
  }

  /** "==" holds if it does for some constant, any other operator if it does for
    * each. */
  ghost predicate Holds(f: Field, relop: Relop, list: ConstantList, ctx: Ctx, env: Env) {
    if f.info.sym.width == 0 then StringHolds(f, relop, list, ctx, env)
    else if relop == EQ then exists c :: HasNumber(list, c, ctx) && NumberHolds(f, EQ, c, env)
    else forall c :: HasNumber(list, c, ctx) ==> NumberHolds(f, relop, c, env)
  }

  /** Likewise with the constants in front. */
  ghost predicate HoldsTurned(list: ConstantList, relop: Relop, f: Field, ctx: Ctx, env: Env) {
    if f.info.sym.width == 0 then StringHolds(f, relop, list, ctx, env)
    else if relop == EQ then exists c :: HasNumber(list, c, ctx) && NumberHoldsTurned(c, EQ, f, env)
    else forall c :: HasNumber(list, c, ctx) ==> NumberHoldsTurned(c, relop, f, env)
  }

  ghost predicate StringHolds(f: Field, relop: Relop, list: ConstantList, ctx: Ctx, env: Env) {
    if relop == EQ then exists name :: HasName(list, name, ctx) && IsPort(f, name, env)
    else forall name :: HasName(list, name, ctx) ==> !IsPort(f, name, env)
  }

  ghost predicate Denotes(p: Phrase, ctx: Ctx, env: Env) {
    match p
    case Truth(token) => NumbersOf(token, ctx) != [] && 0 in NumbersOf(token, ctx)[0].value
    case Bare(field) => FieldOf(field, ctx).Some? && FieldNumber(FieldOf(field, ctx).value, None, env) != 0
    case FieldFirst(field, relop, list) =>
      FieldOf(field, ctx).Some? && Holds(FieldOf(field, ctx).value, relop, list, ctx, env)
    case ConstantFirst(list, relop, field) =>
      FieldOf(field, ctx).Some? && HoldsTurned(list, relop, FieldOf(field, ctx).value, ctx, env)
    case Between(list, relop, field, relop2, list2) =>
      && FieldOf(field, ctx).Some? && HoldsTurned(list, relop, FieldOf(field, ctx).value, ctx, env)
      && Holds(FieldOf(field, ctx).value, relop2, list2, ctx, env)
    case Resides(port) => env.resident(port)
    case Negated(q) => !Denotes(q, ctx, env)
    case Paren(q) => Denotes(q, ctx, env)
    case Chain(And, ps) => forall q :: q in ps ==> Denotes(q, ctx, env)
    case Chain(Or, ps) => exists q :: q in ps && Denotes(q, ctx, env)
  }
}
