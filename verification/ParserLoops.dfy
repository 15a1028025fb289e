/** The parser in the form of lib/expr.c: a position in the tokens that every step
  * advances, and a flag that "!" toggles. */
module ParserLoops {
  import opened Util
  import opened Expressions
  import opened Tokens
  import Annotation
  import P = Parsing

  /** A method's outcome is what the function says: the value and what is left of
    * the tokens, or an error. */
  ghost predicate Agrees<T>(spec: Option<(T, seq<Token>)>, r: Option<T>, left: seq<Token>) {
    if r.Some? then spec == Some((r.value, left)) else spec.None?
  }

  ghost predicate AgreesExpr(spec: P.Parsed, r: Option<Expr>, left: seq<Token>) {
    if r.Some? then spec.Ok? && spec.e == r.value && spec.rest == left else spec.Err?
  }

  class Parser {
    const ctx: P.Ctx
    const tokens: seq<Token>
    var pos: nat
    var not: bool
    var depth: nat

    ghost predicate Ready()
      reads this`pos
    {
      pos <= |tokens|
    }

    ghost function Left(): (r: seq<Token>)
      requires Ready()
      reads this`pos
    {
      tokens[pos..]
    }

    constructor (ctx: P.Ctx, tokens: seq<Token>)
      ensures this.ctx == ctx && this.tokens == tokens && Ready() && Left() == tokens && !not && depth == 0
    {
      this.ctx := ctx;
      this.tokens := tokens;
      pos, not, depth := 0, false, 0;
    }

    /** lexer_match() */
    method Match(t: Token) returns (b: bool)
      requires Ready()
      modifies this`pos
      ensures Ready() && b == P.Next(old(Left()), t)
      ensures Left() == if b then old(Left())[1..] else old(Left())
      ensures pos == if b then old(pos) + 1 else old(pos)
    {
      b := pos < |tokens| && tokens[pos] == t;
      if b {
        pos := pos + 1;
      }
    }

    method AtRelop() returns (b: bool)
      requires Ready()
      ensures b <==> Left() != [] && Left()[0].Rel?
      ensures b ==> pos < |tokens| && tokens[pos] == Left()[0]
    {
      b := pos < |tokens| && tokens[pos].Rel?;
    }

    // ----- constants

    method ParseConstant(cs: P.ConstantSet) returns (r: Option<P.ConstantSet>)
      requires Ready()
      modifies this`pos
      ensures Ready() && Agrees(P.ParseConstant(old(Left()), cs, ctx), r, Left())
    {
      if pos == |tokens| {
        return None;
      }
      r := P.AddToken(cs, tokens[pos], ctx);
      if r.Some? {
        pos := pos + 1;
      }
    }

    /** parse_constant_set() */
    method ParseConstantSet() returns (r: Option<P.ConstantSet>)
      requires Ready()
      modifies this`pos
      ensures Ready() && Agrees(P.ParseConstantSet(old(Left()), ctx), r, Left())
    {
      var curly := Match(LCurly);
      if !curly {
        r := ParseConstant(P.Numbers([], false));
        return;
      }
      ghost var spec := P.ParseConstants(Left(), P.Numbers([], true), ctx);
      var cs := P.Numbers([], true);
      while true
        invariant Ready() && spec == P.ParseConstants(Left(), cs, ctx)
        decreases |tokens| - pos
      {
        var c := ParseConstant(cs);
        if c.None? {
          return None;
        }
        cs := c.value;
        var _ := Match(Comma);
        var done := Match(RCurly);
        if done {
          return Some(cs);
        }
      }
    }

    // ----- fields

    /** lexer_force_int() */
    method ForceInt() returns (r: Option<nat>)
      requires Ready()
      modifies this`pos
      ensures Ready() && (r.Some? <==> P.SmallInt(old(Left())))
      ensures r.Some? ==> r.value == P.Low64(old(Left())[0].n) && Left() == old(Left())[1..]
    {
      if pos < |tokens| && tokens[pos].Int? && tokens[pos].format == Decimal && P.Low64(tokens[pos].n) <= P.INT_MAX {
        r := Some(P.Low64(tokens[pos].n));
        pos := pos + 1;
      } else {
        r := None;
      }
    }

    method ParseRange() returns (r: Option<(nat, nat)>)
      requires Ready()
      modifies this`pos
      ensures Ready()
      ensures var spec := P.ParseRange(old(Left()));
              if r.Some? then spec == Some((r.value.0, r.value.1, Left())) else spec.None?
    {
      var low := ForceInt();
      if low.None? {
        return None;
      }
      var high := low;
      var range := Match(Ellipsis);
      if range {
        high := ForceInt();
        if high.None? {
          return None;
        }
      }
      var closed := Match(RSquare);
      r := if closed then Some((low.value, high.value)) else None;
    }

    /** parse_field() after "[": the subfield, if the symbol may have it. */
    method ParseSubfield(info: Annotation.Info) returns (r: Option<P.Field>)
      requires Ready() && info.sym.width > 0
      modifies this`pos
      ensures Ready() && Agrees(P.Subfield(info, old(Left())), r, Left())
    {
      var range := ParseRange();
      if range.None? {
        return None;
      }
      var (low, high) := range.value;
      if low > high || high >= info.sym.width {
        return None;
      }
      if info.sym.level == Nominal && (low != 0 || high != info.sym.width - 1) {
        return None;
      }
      return Some(P.Field(info, low, high - low + 1));
    }

    /** parse_field() */
    method ParseField() returns (r: Option<P.Field>)
      requires Ready()
      modifies this`pos
      ensures Ready() && Agrees(P.ParseField(old(Left()), ctx), r, Left())
    {
      if pos == |tokens| || !tokens[pos].Id? || tokens[pos].name !in ctx.tab {
        return None;
      }
      var info := ctx.tab[tokens[pos].name];
      pos := pos + 1;
      var square := Match(LSquare);
      if !square {
        return Some(P.Field(info, 0, info.sym.width));
      }
      if info.sym.width == 0 {
        return None;
      }
      r := ParseSubfield(info);
    }

    // ----- comparisons

    /** make_cmp() */
    method MakeCmp(f: P.Field, r: Relop, cs: P.ConstantSet) returns (e: Option<Expr>)
      ensures e == P.MakeCmp(f, r, cs, not)
    {
      if !P.TypeOk(f.info.sym, cs) || !P.RelopFits(f.info.sym, r, cs) {
        return None;
      }
      if f.info.sym.level == Nominal {
        if f.info.expansion.Some? {
          var positive := AllPositive(r, cs);
          if !positive {
            return None;
          }
        } else if r != if not then NE else EQ {
          return None;
        }
      }
      var es := P.Cmps(f, r, cs);
      if es == [] {
        return Some(Bool(r == NE));
      }
      var op := if r == EQ then Or else And;
      var all := es[0];
      for i := 1 to |es|
        invariant P.CombineAll(all, op, es[i..]) == P.CombineAll(es[0], op, es[1..])
      {
        assert es[i..][1..] == es[i + 1..];
        all := Combine(op, all, es[i]);
      }
      return Some(all);
    }

    /** Its check of nominal predicates. */
    method AllPositive(r: Relop, cs: P.ConstantSet) returns (b: bool)
      ensures b <==> cs.Numbers? && forall c :: c in cs.nums ==> P.TestsPositively(r, c, not)
    {
      if cs.Strings? {
        return false;
      }
      for i := 0 to |cs.nums|
        invariant forall k :: 0 <= k < i ==> P.TestsPositively(r, cs.nums[k], not)
      {
        var positive := 0 in cs.nums[i].value;
        if r == NE {
          positive := !positive;
        }
        if not {
          positive := !positive;
        }
        if !positive {
          assert cs.nums[i] in cs.nums;
          return false;
        }
      }
      return true;
    }

    // ----- expressions

    method ParseResident() returns (e: Option<Expr>)
      requires Ready()
      modifies this`pos
      ensures Ready() && AgreesExpr(P.ParseResident(old(Left())), e, Left())
    {
      if pos == |tokens| || !tokens[pos].LitStr? {
        return None;
      }
      var port := tokens[pos].s;
      pos := pos + 1;
      var closed := Match(RParen);
      e := if closed then Some(Cond(false, port)) else None;
    }

    /** A comparison, after its field. */
    method AfterField(f: P.Field) returns (e: Option<Expr>, atomic: bool)
      requires Ready()
      modifies this`pos
      ensures Ready() && AgreesExpr(P.AfterField(f, old(Left()), not, ctx), e, Left())
      ensures e.Some? ==> atomic == P.AfterField(f, old(Left()), not, ctx).atomic
    {
      atomic := false;
      var relop := AtRelop();
      if !relop {
        if f.n == 0 || (pos < |tokens| && tokens[pos] == Equals) || (f.n > 1 && !not) {
          return None, false;
        }
        atomic := true;
        e := MakeCmp(f, NE, P.Numbers([P.Written({}, None, Hexadecimal)], false));
      } else {
        var r := tokens[pos].relop;
        pos := pos + 1;
        var cs := ParseConstantSet();
        if cs.None? {
          return None, false;
        }
        e := MakeCmp(f, r, cs.value);
      }
    }

    /** A range such as "1 < x < 5", from the second operator on. */
    method AfterRelop(f: P.Field, r1: Relop, c1: P.ConstantSet) returns (e: Option<Expr>)
      requires Ready() && Left() != [] && Left()[0].Rel?
      modifies this`pos
      ensures Ready() && AgreesExpr(P.ParseSecond(f, r1, c1, old(Left()), not, ctx), e, Left())
    {
      var r2 := tokens[pos].relop;
      pos := pos + 1;
      var c2 := ParseConstantSet();
      if c2.None? {
        return None;
      }
      if !P.SameDirection(r1, r2) {
        return None;
      }
      var e1 := MakeCmp(f, RelopTurn(r1), c1);
      var e2 := MakeCmp(f, r2, c2.value);
      e := if e1.None? || e2.None? then None else Some(Combine(And, e1.value, e2.value));
    }

    /** A Boolean constant or a comparison, after its constants. */
    method AfterConstants(c1: P.ConstantSet) returns (e: Option<Expr>, atomic: bool)
      requires Ready()
      modifies this`pos
      ensures Ready() && AgreesExpr(P.AfterConstants(c1, old(Left()), not, ctx), e, Left())
      ensures e.Some? ==> atomic == P.AfterConstants(c1, old(Left()), not, ctx).atomic
    {
      var relop := AtRelop();
      if !relop {
        if P.IsBoolean(c1) {
          return Some(Bool(0 in c1.nums[0].value)), true;
        }
        return None, false;
      }
      var r1 := tokens[pos].relop;
      pos := pos + 1;
      var f := ParseField();
      if f.None? {
        return None, false;
      }
      atomic := false;
      relop := AtRelop();
      if !relop {
        e := MakeCmp(f.value, RelopTurn(r1), c1);
      } else {
        e := AfterRelop(f.value, r1, c1);
      }
    }

    /** expr_parse_primary() */
    method ParsePrimary() returns (e: Option<Expr>, atomic: bool)
      requires Ready()
      modifies this
      ensures Ready() && not == old(not) && depth == old(depth)
      ensures AgreesExpr(P.ParsePrimary(old(Left()), not, depth, ctx), e, Left())
      ensures e.Some? ==> atomic == P.ParsePrimary(old(Left()), not, depth, ctx).atomic
      decreases |tokens| - pos, 1
    {
      var paren := Match(LParen);
      if paren {
        if depth >= P.MAX_PAREN_DEPTH {
          return None, false;
        }
        depth := depth + 1;
        e := ParseExpr();
        depth := depth - 1;
        if e.None? {
          return None, false;
        }
        var closed := Match(RParen);
        return if closed then e else None, true;
      }
      if pos < |tokens| && tokens[pos].Id? {
        if pos + 1 < |tokens| && tokens[pos + 1] == LParen {
          if tokens[pos].name != P.FUNCTION_NAME {
            return None, false;
          }
          pos := pos + 2;
          e := ParseResident();
          return e, true;
        }
        var f := ParseField();
        if f.None? {
          return None, false;
        }
        e, atomic := AfterField(f.value);
      } else {
        var cs := ParseConstantSet();
        if cs.None? {
          return None, false;
        }
        e, atomic := AfterConstants(cs.value);
      }
    }

    /** expr_parse_not() */
    method ParseNot() returns (e: Option<Expr>)
      requires Ready()
      modifies this
      ensures Ready() && not == old(not) && depth == old(depth)
      ensures AgreesExpr(P.ParseNot(old(Left()), not, depth, ctx), e, Left())
      decreases |tokens| - pos, 2
    {
      var atomic;
      var negated := Match(LogNot);
      if negated {
        not := !not;
        e, atomic := ParsePrimary();
        not := !not;
        if e.Some? {
          e := if atomic then Some(Not(e.value)) else None;
        }
      } else {
        e, atomic := ParsePrimary();
      }
    }

    /** expr_parse__() */
    method ParseExpr() returns (e: Option<Expr>)
      requires Ready()
      modifies this
      ensures Ready() && not == old(not) && depth == old(depth)
      ensures AgreesExpr(P.ParseExpr(old(Left()), not, depth, ctx), e, Left())
      decreases |tokens| - pos, 4
    {
      e := ParseNot();
      if e.None? || pos == |tokens| || !tokens[pos].Logic? {
        return;
      }
      var op := tokens[pos].op;
      pos := pos + 1;
      e := ParseOperands(op, e.value);
    }

    /** Its loop over the operands after the first one. */
    method ParseOperands(op: Op, first: Expr) returns (e: Option<Expr>)
      requires Ready()
      modifies this
      ensures Ready() && not == old(not) && depth == old(depth)
      ensures AgreesExpr(P.ParseOperands(op, first, old(Left()), not, depth, ctx), e, Left())
      decreases |tokens| - pos, 3
    {
      ghost var spec := P.ParseOperands(op, first, Left(), not, depth, ctx);
      ghost var start := pos;
      var all := first;
      while true
        invariant Ready() && not == old(not) && depth == old(depth) && pos >= start
        invariant spec == P.ParseOperands(op, all, Left(), not, depth, ctx)
        decreases |tokens| - pos
      {
        var e2 := ParseNot();
        if e2.None? {
          return None;
        }
        all := Combine(op, all, e2.value);
        var more := Match(Logic(op));
        if !more {
          if pos < |tokens| && tokens[pos].Logic? {
            return None;
          }
          return Some(all);
        }
      }
    }

    /** expr_parse_string() */
    method Parse() returns (e: Option<Expr>)
      requires Ready() && pos == 0 && !not && depth == 0
      modifies this
      ensures e == P.Parse(tokens, ctx)
    {
      assert Left() == tokens;
      e := ParseExpr();
      if e.Some? && pos != |tokens| {
        e := None;
      }
    }
  }
}
