/** Parsing match expressions (lib/expr.c), on values: each function takes the
  * tokens that are left and returns what it parsed and the tokens after it. */
module Parsing {
  import opened Util
  import opened Bits
  import opened Expressions
  import opened Annotation
  import opened Tokens

  const MAX_PAREN_DEPTH: nat := 100
  const INT_MAX: nat := 0x7fff_ffff

  /** A numeric constant as it was written. */
  datatype Written = Written(value: Bits, mask: Option<Bits>, format: Notation)

  datatype ConstantSet =
    | Numbers(nums: seq<Written>, inCurlies: bool)
    | Strings(names: seq<string>, inCurlies: bool)

  /** What names in the input refer to. */
  datatype Ctx = Ctx(tab: Table, addrSets: map<string, seq<Written>>, portGroups: map<string, seq<string>>)

  /** Part of a symbol, or all of it; a string symbol has no bits. */
  datatype Field = Field(info: Info, ofs: nat, n: nat)

  /** 'atomic' tells whether a "!" may stand in front of it. */
  datatype Parsed = Ok(e: Expr, rest: seq<Token>, atomic: bool) | Err

  /** The low 64 bits of a number, which is all that some checks look at. */
  function Low64(n: nat): (r: nat) {
    n % 0x1_0000_0000_0000_0000
  }

  predicate Next(ts: seq<Token>, t: Token) {
    ts != [] && ts[0] == t
  }

  // ----- constants

  predicate IsEmpty(cs: ConstantSet) {
    if cs.Numbers? then cs.nums == [] else cs.names == []
  }

  /** assign_constant_set_type(): a set takes the type of its first constants. */
  function AddNumbers(cs: ConstantSet, vs: seq<Written>): (r: Option<ConstantSet>) {
    if cs.Numbers? then Some(cs.(nums := cs.nums + vs))
    else if cs.names == [] then Some(Numbers(vs, cs.inCurlies))
    else None
  }

  function AddStrings(cs: ConstantSet, vs: seq<string>): (r: Option<ConstantSet>) {
    if cs.Strings? then Some(cs.(names := cs.names + vs))
    else if cs.nums == [] then Some(Strings(vs, cs.inCurlies))
    else None
  }

  /** The set with the constants that a token stands for. */
  function AddToken(cs: ConstantSet, t: Token, ctx: Ctx): (r: Option<ConstantSet>) {
    match t
    case LitStr(s) => AddStrings(cs, [s])
    case Int(n, format) => AddNumbers(cs, [Written(BitsOf(n), None, format)])
    case MaskedInt(n, mask, format) => AddNumbers(cs, [Written(BitsOf(n), Some(BitsOf(mask)), format)])
    case Macro(name) => if name in ctx.addrSets then AddNumbers(cs, ctx.addrSets[name]) else None
    case PortGroup(name) => if name in ctx.portGroups then AddStrings(cs, ctx.portGroups[name]) else None
    case _ => None
  }

  function ParseConstant(ts: seq<Token>, cs: ConstantSet, ctx: Ctx): (r: Option<(ConstantSet, seq<Token>)>)
    ensures r.Some? ==> |r.value.1| < |ts|
  {
    if ts == [] then None
    else match AddToken(cs, ts[0], ctx)
      case None => None
      case Some(cs1) => Some((cs1, ts[1..]))
  }

  /** Constants up to and including the closing curly bracket. */
  function ParseConstants(ts: seq<Token>, cs: ConstantSet, ctx: Ctx): (r: Option<(ConstantSet, seq<Token>)>)
    ensures r.Some? ==> |r.value.1| < |ts|
    decreases |ts|
  {
    match ParseConstant(ts, cs, ctx)
    case None => None
    case Some((cs1, rest)) =>
      var rest1 := if Next(rest, Comma) then rest[1..] else rest;
      if Next(rest1, RCurly) then Some((cs1, rest1[1..])) else ParseConstants(rest1, cs1, ctx)
  }

  function ParseConstantSet(ts: seq<Token>, ctx: Ctx): (r: Option<(ConstantSet, seq<Token>)>)
    ensures r.Some? ==> |r.value.1| < |ts|
  {
    if Next(ts, LCurly) then ParseConstants(ts[1..], Numbers([], true), ctx)
    else ParseConstant(ts, Numbers([], false), ctx)
  }

  // ----- fields

  predicate SmallInt(ts: seq<Token>) {
    ts != [] && ts[0].Int? && ts[0].format == Decimal && Low64(ts[0].n) <= INT_MAX
  }

  /** The bits selected by what follows "[". */
  function ParseRange(ts: seq<Token>): (r: Option<(nat, nat, seq<Token>)>)
    ensures r.Some? ==> |r.value.2| < |ts|
  {
    if !SmallInt(ts) then None
    else
      var low, rest := Low64(ts[0].n), ts[1..];
      if Next(rest, Ellipsis) then
        if !SmallInt(rest[1..]) || !Next(rest[2..], RSquare) then None else Some((low, Low64(rest[1].n), rest[3..]))
      else if Next(rest, RSquare) then Some((low, low, rest[1..]))
      else None
  }

  /** Part of a field that follows "[", which a nominal field may not have. */
  function Subfield(info: Info, ts: seq<Token>): (r: Option<(Field, seq<Token>)>)
    ensures r.Some? ==> |r.value.1| < |ts|
  {
    match ParseRange(ts)
    case None => None
    case Some((low, high, rest)) =>
      if low > high || high >= info.sym.width then None
      else if info.sym.level == Nominal && (low != 0 || high != info.sym.width - 1) then None
      else Some((Field(info, low, high - low + 1), rest))
  }

  function ParseField(ts: seq<Token>, ctx: Ctx): (r: Option<(Field, seq<Token>)>)
    ensures r.Some? ==> |r.value.1| < |ts|
  {
    if ts == [] || !ts[0].Id? || ts[0].name !in ctx.tab then None
    else
      var info := ctx.tab[ts[0].name];
      if !Next(ts[1..], LSquare) then Some((Field(info, 0, info.sym.width), ts[1..]))
      else if info.sym.width == 0 then None
      else Subfield(info, ts[2..])
  }

  // ----- comparisons

  /** expr_constant_width() is more than 'width'. */
  predicate TooWide(c: Written, width: nat) {
    if c.mask.Some? then !(c.mask.value <= Range(0, width))
    else match c.format
      case Decimal => !(c.value <= Range(0, width))
      case Hexadecimal => !(c.value <= Range(0, width))
      case Ipv4 => 32 > width
      case Ipv6 => 128 > width
      case Ethernet => 48 > width
  }

  /** type_check() */
  predicate TypeOk(sym: Symbol, cs: ConstantSet) {
    if sym.width == 0 then cs.Strings?
    else cs.Numbers? && forall c :: c in cs.nums ==> !TooWide(c, sym.width)
  }

  function CopyBits(b: Bits, ofs: nat, n: nat): (r: Bits)
    ensures forall i :: i in r <==> ofs <= i < ofs + n && i - ofs in b
  {
    ShiftBits(b * Range(0, n), ofs)
  }

  /** make_cmp__() */
  function NumberCmp(f: Field, r: Relop, c: Written): (e: Expr) {
    Cmp(f.info.sym, r,
        Num(CopyBits(c.value, f.ofs, f.n),
            if c.mask.Some? then CopyBits(c.mask.value, f.ofs, f.n) else Range(f.ofs, f.ofs + f.n)))
  }

  function StringCmp(f: Field, r: Relop, name: string): (e: Expr) {
    Cmp(f.info.sym, r, Str(name))
  }

  /** The comparisons with each constant. */
  function Cmps(f: Field, r: Relop, cs: ConstantSet): (es: seq<Expr>)
    ensures es == [] <==> IsEmpty(cs)
  {
    match cs
    case Numbers(nums, _) => seq(|nums|, i requires 0 <= i < |nums| => NumberCmp(f, r, nums[i]))
    case Strings(names, _) => seq(|names|, i requires 0 <= i < |names| => StringCmp(f, r, names[i]))
  }

  function CombineAll(e: Expr, op: Op, es: seq<Expr>): (e1: Expr)
    decreases |es|
  {
    if es == [] then e else CombineAll(Combine(op, e, es[0]), op, es[1..])
  }

  /** Whether a nominal predicate is asked to hold, given the number of
    * enclosing "!". */
  predicate TestsPositively(r: Relop, c: Written, not: bool) {
    ((0 in c.value) != (r == NE)) != not
  }

  /** "==" and "!=" go with anything, the others with one plain number only. */
  predicate RelopFits(sym: Symbol, r: Relop, cs: ConstantSet) {
    r == EQ || r == NE ||
    (!cs.inCurlies && sym.level == Ordinal && cs.Numbers? && cs.nums != [] && cs.nums[0].mask.None?)
  }

  /** A nominal symbol is compared for equality only, a nominal predicate may
    * only be asked to hold; 'not' is true inside an odd number of "!". */
  predicate NominalOk(f: Field, r: Relop, cs: ConstantSet, not: bool) {
    if f.info.sym.level != Nominal then true
    else if f.info.expansion.Some? then cs.Numbers? && forall c :: c in cs.nums ==> TestsPositively(r, c, not)
    else r == if not then NE else EQ
  }

  /** make_cmp() */
  function MakeCmp(f: Field, r: Relop, cs: ConstantSet, not: bool): (e: Option<Expr>) {
    if !TypeOk(f.info.sym, cs) || !RelopFits(f.info.sym, r, cs) || !NominalOk(f, r, cs, not) then None
    else
      var es := Cmps(f, r, cs);
      if es == [] then Some(Bool(r == NE)) else Some(CombineAll(es[0], if r == EQ then Or else And, es[1..]))
  }

  // ----- expressions

  const FUNCTION_NAME := "is_chassis_resident"

  function ParseResident(ts: seq<Token>): (r: Parsed)
    ensures r.Ok? ==> |r.rest| < |ts|
  {
    if ts == [] || !ts[0].LitStr? || !Next(ts[1..], RParen) then Err
    else Ok(Cond(false, ts[0].s), ts[2..], true)
  }

  /** What follows a field: nothing, which is a test for not being 0, or an
    * operator and constants. */
  function AfterField(f: Field, ts: seq<Token>, not: bool, ctx: Ctx): (r: Parsed)
    ensures r.Ok? ==> |r.rest| <= |ts|
  {
    if ts == [] || !ts[0].Rel? then
      if f.n == 0 || Next(ts, Equals) || (f.n > 1 && !not) then Err
      else
        match MakeCmp(f, NE, Numbers([Written({}, None, Hexadecimal)], false), not)
        case None => Err
        case Some(e) => Ok(e, ts, true)
    else
      match ParseConstantSet(ts[1..], ctx)
      case None => Err
      case Some((cs, rest)) =>
        match MakeCmp(f, ts[0].relop, cs, not)
        case None => Err
        case Some(e) => Ok(e, rest, false)
  }

  /** A comparison that starts with a field. */
  function ParseFieldFirst(ts: seq<Token>, not: bool, ctx: Ctx): (r: Parsed)
    ensures r.Ok? ==> |r.rest| < |ts|
  {
    match ParseField(ts, ctx)
    case None => Err
    case Some((f, rest)) => AfterField(f, rest, not, ctx)
  }

  /** "0" and "1" by themselves. */
  predicate IsBoolean(cs: ConstantSet) {
    && cs.Numbers? && |cs.nums| == 1 && !cs.inCurlies
    && cs.nums[0].format == Decimal && cs.nums[0].mask.None? && cs.nums[0].value * Range(0, 64) <= {0}
  }

  predicate SameDirection(r1: Relop, r2: Relop) {
    (r1 in {LT, LE} && r2 in {LT, LE}) || (r1 in {GT, GE} && r2 in {GT, GE})
  }

  /** The second comparison of a range such as "1 < x < 5". */
  function ParseSecond(f: Field, r1: Relop, c1: ConstantSet, ts: seq<Token>, not: bool, ctx: Ctx): (r: Parsed)
    requires ts != [] && ts[0].Rel?
    ensures r.Ok? ==> |r.rest| < |ts|
  {
    match ParseConstantSet(ts[1..], ctx)
    case None => Err
    case Some((c2, rest)) =>
      if !SameDirection(r1, ts[0].relop) then Err
      else
        var e1, e2 := MakeCmp(f, RelopTurn(r1), c1, not), MakeCmp(f, ts[0].relop, c2, not);
        if e1.None? || e2.None? then Err else Ok(Combine(And, e1.value, e2.value), rest, false)
  }

  /** What follows constants: nothing, if they are a Boolean constant, or an
    * operator and a field, and possibly a second operator. */
  function AfterConstants(c1: ConstantSet, ts: seq<Token>, not: bool, ctx: Ctx): (r: Parsed)
    ensures r.Ok? ==> |r.rest| <= |ts|
  {
    if ts == [] || !ts[0].Rel? then
      if IsBoolean(c1) then Ok(Bool(0 in c1.nums[0].value), ts, true) else Err
    else
      match ParseField(ts[1..], ctx)
      case None => Err
      case Some((f, rest)) =>
        if rest == [] || !rest[0].Rel? then
          match MakeCmp(f, RelopTurn(ts[0].relop), c1, not)
          case None => Err
          case Some(e) => Ok(e, rest, false)
        else ParseSecond(f, ts[0].relop, c1, rest, not, ctx)
  }

  /** A Boolean constant, or a comparison that starts with a constant. */
  function ParseConstantFirst(ts: seq<Token>, not: bool, ctx: Ctx): (r: Parsed)
    ensures r.Ok? ==> |r.rest| < |ts|
  {
    match ParseConstantSet(ts, ctx)
    case None => Err
    case Some((c1, rest)) => AfterConstants(c1, rest, not, ctx)
  }

  /** expr_parse_primary() */
  function ParsePrimary(ts: seq<Token>, not: bool, depth: nat, ctx: Ctx): (r: Parsed)
    ensures r.Ok? ==> |r.rest| < |ts|
    decreases |ts|, 1
  {
    if Next(ts, LParen) then
      if depth >= MAX_PAREN_DEPTH then Err
      else
        match ParseExpr(ts[1..], not, depth + 1, ctx)
        case Err => Err
        case Ok(e, rest, _) => if Next(rest, RParen) then Ok(e, rest[1..], true) else Err
    else if ts != [] && ts[0].Id? then
      if Next(ts[1..], LParen) then
        if ts[0].name == FUNCTION_NAME then ParseResident(ts[2..]) else Err
      else ParseFieldFirst(ts, not, ctx)
    else ParseConstantFirst(ts, not, ctx)
  }

  /** expr_parse_not() */
  function ParseNot(ts: seq<Token>, not: bool, depth: nat, ctx: Ctx): (r: Parsed)
    ensures r.Ok? ==> |r.rest| < |ts|
    decreases |ts|, 2
  {
    if Next(ts, LogNot) then
      match ParsePrimary(ts[1..], !not, depth, ctx)
      case Err => Err
      case Ok(e, rest, atomic) => if atomic then Ok(Not(e), rest, true) else Err
    else ParsePrimary(ts, not, depth, ctx)
  }

  /** The operands after "e op". */
  function ParseOperands(op: Op, e: Expr, ts: seq<Token>, not: bool, depth: nat, ctx: Ctx): (r: Parsed)
    ensures r.Ok? ==> |r.rest| < |ts|
    decreases |ts|, 3
  {
    match ParseNot(ts, not, depth, ctx)
    case Err => Err
    case Ok(e2, rest, _) =>
      var e1 := Combine(op, e, e2);
      if rest != [] && rest[0].Logic? then
        if rest[0].op == op then ParseOperands(op, e1, rest[1..], not, depth, ctx) else Err
      else Ok(e1, rest, false)
  }

  /** expr_parse__() */
  function ParseExpr(ts: seq<Token>, not: bool, depth: nat, ctx: Ctx): (r: Parsed)
    ensures r.Ok? ==> |r.rest| < |ts|
    decreases |ts|, 3
  {
    match ParseNot(ts, not, depth, ctx)
    case Err => Err
    case Ok(e, rest, atomic) =>
      if rest != [] && rest[0].Logic? then ParseOperands(rest[0].op, e, rest[1..], not, depth, ctx)
      else Ok(e, rest, false)
  }

  /** expr_parse_string(): all of the input has to be an expression. */
  function Parse(ts: seq<Token>, ctx: Ctx): (r: Option<Expr>) {
    match ParseExpr(ts, false, 0, ctx)
    case Err => None
    case Ok(e, rest, _) => if rest == [] then Some(e) else None
  }
}
