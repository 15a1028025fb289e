/** What a comparison parses to says what was written: make_cmp() in lib/expr.c,
  * for every field, operator and set of constants. */
module Comparisons {
  import opened Util
  import opened Bits
  import opened Expressions
  import opened Annotation
  import opened Tokens
  import opened Parsing
  import opened ParseResults
  import opened Grammar

  // ----- what an expression says inside "!"

  /** What 'e' says: inside an odd number of "!" ('not') it is yet to be negated, so
    * that a port that is not known counts as different. */
  predicate Says(e: Expr, not: bool, env: Env) {
    if not then !Eval(Not(e), env) else Eval(e, env)
  }

  lemma SaysNot(e: Expr, not: bool, env: Env)
    ensures Says(Not(e), !not, env) == !Says(e, not, env)
  {
    NotInvolutive(e);
  }

  lemma {:induction false} NotAllConcat(a: seq<Expr>, b: seq<Expr>)
    ensures NotAll(a + b) == NotAll(a) + NotAll(b)
  {
    if a == [] {
      assert a + b == b;
    } else {
      assert (a + b)[1..] == a[1..] + b;
      NotAllConcat(a[1..], b);
    }
  }

  lemma NotSplice(op: Op, e: Expr)
    ensures NotAll(Splice(op, e)) == Splice(Dual(op), Not(e))
  {
    if !(e.AndOr? && e.op == op) {
      assert [e][1..] == [];
    }
  }

  lemma NotCombine(op: Op, a: Expr, b: Expr)
    ensures Not(Combine(op, a, b)) == Combine(Dual(op), Not(a), Not(b))
  {
    NotAllConcat(Splice(op, a), Splice(op, b));
    NotSplice(op, a);
    NotSplice(op, b);
  }

  lemma SaysCombine(op: Op, a: Expr, b: Expr, not: bool, env: Env)
    ensures Says(Combine(op, a, b), not, env) == Join(op, Says(a, not, env), Says(b, not, env))
  {
    EvalCombine(op, a, b, env);
    NotCombine(op, a, b);
    EvalCombine(Dual(op), Not(a), Not(b), env);
  }

  ghost predicate SaysSome(es: seq<Expr>, not: bool, env: Env) {
    exists e :: e in es && Says(e, not, env)
  }

  ghost predicate SaysEach(es: seq<Expr>, not: bool, env: Env) {
    forall e :: e in es ==> Says(e, not, env)
  }

  ghost predicate SaysAll(op: Op, es: seq<Expr>, not: bool, env: Env) {
    if op == Or then SaysSome(es, not, env) else SaysEach(es, not, env)
  }

  lemma SaysCons(op: Op, e: Expr, es: seq<Expr>, not: bool, env: Env)
    ensures es == [] ==> SaysAll(op, [e] + es, not, env) == Says(e, not, env)
    ensures SaysAll(op, [e] + es, not, env) == Join(op, Says(e, not, env), SaysAll(op, es, not, env))
  {
    forall x ensures x in [e] + es <==> x == e || x in es { }
  }

  lemma {:induction false} SaysCombineAll(e: Expr, op: Op, es: seq<Expr>, not: bool, env: Env)
    ensures Says(CombineAll(e, op, es), not, env) == SaysAll(op, [e] + es, not, env)
    decreases |es|
  {
    SaysCons(op, e, es, not, env);
    if es != [] {
      var e1 := Combine(op, e, es[0]);
      SaysCombine(op, e, es[0], not, env);
      SaysCombineAll(e1, op, es[1..], not, env);
      SaysCons(op, e1, es[1..], not, env);
      SaysCons(op, es[0], es[1..], not, env);
      assert es == [es[0]] + es[1..];
    }
  }

  // ----- one constant

  /** 'a' and 'b' have 1-bits in [ofs, ofs + n) only, where they are 'x' and 'y'. */
  lemma {:induction false} CompareShifted(a: Bits, b: Bits, w: nat, x: Bits, y: Bits, ofs: nat, n: nat)
    requires ofs + n <= w && forall i: nat :: i < w && !(ofs <= i < ofs + n) ==> i !in a && i !in b
    requires forall i: nat :: i < n ==> (i in x <==> i + ofs in a) && (i in y <==> i + ofs in b)
    ensures Compare(a, b, w) == Compare(x, y, n)
    decreases w
  {
    if n == 0 {
      CompareZero(a, b, w);
    } else if w > ofs + n {
      CompareShifted(a, b, w - 1, x, y, ofs, n);
    } else {
      assert n - 1 in x <==> n - 1 + ofs in a;
      CompareShifted(a, b, w - 1, x, y, ofs, n - 1);
    }
  }

  lemma TestIsRelation(relop: Relop, a: Bits, b: Bits, w: nat)
    ensures RelopTest(relop, Compare(a, b, w)) == Relates(relop, Number(a, w), Number(b, w))
  {
    CompareIsNumeric(a, b, w);
  }

  lemma NumberCmpHolds(f: Field, relop: Relop, c: Written, env: Env)
    requires f.ofs + f.n <= f.info.sym.width
    ensures Eval(NumberCmp(f, relop, c), env) == NumberHolds(f, relop, c, env)
  {
    var cst := NumberCmp(f, relop, c).cst;
    var bits := Extract(env.pkt(f.info.sym), f.ofs, f.n);
    var x := if c.mask.Some? then bits * c.mask.value else bits;
    CompareShifted(env.pkt(f.info.sym) * cst.mask, cst.value, f.info.sym.width, x, c.value, f.ofs, f.n);
    TestIsRelation(relop, x, c.value, f.n);
  }

  lemma NumberCmpSays(f: Field, relop: Relop, c: Written, not: bool, env: Env)
    requires f.ofs + f.n <= f.info.sym.width
    ensures Says(NumberCmp(f, relop, c), not, env) == NumberHolds(f, relop, c, env)
  {
    NumberCmpHolds(f, relop, c, env);
    NumberCmpHolds(f, RelopInvert(relop), c, env);
    assert Not(NumberCmp(f, relop, c)) == NumberCmp(f, RelopInvert(relop), c);
  }

  lemma StringCmpSays(f: Field, name: string, not: bool, env: Env)
    ensures Says(StringCmp(f, if not then NE else EQ, name), not, env) == (IsPort(f, name, env) != not)
  {
    var port := env.lookup(name);
    if port.Some? {
      TestIsRelation(EQ, env.pkt(f.info.sym), port.value, PORT_BITS);
    }
  }

  // ----- the constants of a list

  function AllNumbers(ts: seq<Token>, ctx: Ctx): (r: seq<Written>) {
    if ts == [] then [] else AllNumbers(ts[..|ts| - 1], ctx) + NumbersOf(ts[|ts| - 1], ctx)
  }

  function AllNames(ts: seq<Token>, ctx: Ctx): (r: seq<string>) {
    if ts == [] then [] else AllNames(ts[..|ts| - 1], ctx) + NamesOf(ts[|ts| - 1], ctx)
  }

  /** The constants that the tokens stand for; the last one decides on their type. */
  function SetOf(ts: seq<Token>, braced: bool, ctx: Ctx): (r: ConstantSet) {
    if ts == [] || IsNumeric(ts[|ts| - 1]) then Numbers(AllNumbers(ts, ctx), braced)
    else Strings(AllNames(ts, ctx), braced)
  }

  lemma {:induction false} InAllNumbers(ts: seq<Token>, c: Written, ctx: Ctx)
    ensures c in AllNumbers(ts, ctx) <==> exists t :: t in ts && c in NumbersOf(t, ctx)
  {
    if ts != [] {
      var init, last := ts[..|ts| - 1], ts[|ts| - 1];
      InAllNumbers(init, c, ctx);
      assert forall t :: t in ts <==> t in init || t == last;
    }
  }

  lemma {:induction false} InAllNames(ts: seq<Token>, name: string, ctx: Ctx)
    ensures name in AllNames(ts, ctx) <==> exists t :: t in ts && name in NamesOf(t, ctx)
  {
    if ts != [] {
      var init, last := ts[..|ts| - 1], ts[|ts| - 1];
      InAllNames(init, name, ctx);
      assert forall t :: t in ts <==> t in init || t == last;
    }
  }

  // ----- the checks

  lemma ListHas(list: ConstantList, ctx: Ctx)
    requires ListOk(list, ctx)
    ensures var cs := SetOf(TokensOf(list), list.Braced?, ctx);
            if IsNumericList(list) then cs.Numbers? && forall c :: c in cs.nums <==> HasNumber(list, c, ctx)
            else cs.Strings? && forall name :: name in cs.names <==> HasName(list, name, ctx)
  {
    var ts := TokensOf(list);
    if IsNumericList(list) {
      forall c ensures c in AllNumbers(ts, ctx) <==> HasNumber(list, c, ctx) {
        InAllNumbers(ts, c, ctx);
      }
    } else {
      forall name ensures name in AllNames(ts, ctx) <==> HasName(list, name, ctx) {
        InAllNames(ts, name, ctx);
      }
    }
  }

  lemma WideIff(c: Written, width: nat)
    ensures TooWide(c, width) <==> !FitsIn(c, width)
  {
  }

  lemma TypesIff(f: Field, list: ConstantList, ctx: Ctx)
    requires ListOk(list, ctx)
    ensures TypeOk(f.info.sym, SetOf(TokensOf(list), list.Braced?, ctx)) <==> TypesFit(f, list, ctx)
  {
    ListHas(list, ctx);
    forall c: Written ensures TooWide(c, f.info.sym.width) <==> !FitsIn(c, f.info.sym.width) {
      WideIff(c, f.info.sym.width);
    }
  }

  lemma SingleNumbers(t: Token, ctx: Ctx)
    ensures AllNumbers([t], ctx) == NumbersOf(t, ctx) && AllNames([t], ctx) == NamesOf(t, ctx)
  {
    assert [t][..0] == [];
  }

  lemma OrderIff(f: Field, relop: Relop, list: ConstantList, ctx: Ctx)
    requires ListOk(list, ctx)
    ensures RelopFits(f.info.sym, relop, SetOf(TokensOf(list), list.Braced?, ctx)) <==> OrderFits(f, relop, list, ctx)
  {
    if list.Single? {
      SingleNumbers(list.token, ctx);
    }
  }

  lemma PolarityIff(f: Field, relop: Relop, list: ConstantList, not: bool, ctx: Ctx)
    requires ListOk(list, ctx) && OrderFits(f, relop, list, ctx)
    ensures NominalOk(f, relop, SetOf(TokensOf(list), list.Braced?, ctx), not)
            <==> PolarityFits(f, relop, list, not, ctx)
  {
    ListHas(list, ctx);
  }

  /** make_cmp() accepts exactly what the rules of the language do. */
  lemma AcceptedIff(f: Field, relop: Relop, list: ConstantList, not: bool, ctx: Ctx)
    requires ListOk(list, ctx)
    ensures MakeCmp(f, relop, SetOf(TokensOf(list), list.Braced?, ctx), not).Some?
            <==> Comparable(f, relop, list, not, ctx)
  {
    TypesIff(f, list, ctx);
    OrderIff(f, relop, list, ctx);
    if OrderFits(f, relop, list, ctx) {
      PolarityIff(f, relop, list, not, ctx);
    }
  }

  // ----- the meaning

  lemma NumbersSay(f: Field, relop: Relop, nums: seq<Written>, braced: bool, not: bool, env: Env)
    requires f.ofs + f.n <= f.info.sym.width
    ensures var es := Cmps(f, relop, Numbers(nums, braced));
            && SaysSome(es, not, env) == (exists c :: c in nums && NumberHolds(f, relop, c, env))
            && SaysEach(es, not, env) == (forall c :: c in nums ==> NumberHolds(f, relop, c, env))
  {
    var es := Cmps(f, relop, Numbers(nums, braced));
    forall i | 0 <= i < |nums|
      ensures es[i] in es && nums[i] in nums && Says(es[i], not, env) == NumberHolds(f, relop, nums[i], env)
    {
      NumberCmpSays(f, relop, nums[i], not, env);
    }
  }

  lemma StringsSay(f: Field, names: seq<string>, braced: bool, not: bool, env: Env)
    ensures var es := Cmps(f, if not then NE else EQ, Strings(names, braced));
            && SaysSome(es, not, env) == (exists name :: name in names && IsPort(f, name, env) != not)
            && SaysEach(es, not, env) == (forall name :: name in names ==> IsPort(f, name, env) != not)
  {
    var es := Cmps(f, if not then NE else EQ, Strings(names, braced));
    forall i | 0 <= i < |names|
      ensures es[i] in es && names[i] in names && Says(es[i], not, env) == (IsPort(f, names[i], env) != not)
    {
      StringCmpSays(f, names[i], not, env);
    }
  }

  lemma MadeSays(f: Field, relop: Relop, cs: ConstantSet, not: bool, env: Env)
    requires MakeCmp(f, relop, cs, not).Some?
    ensures Says(MakeCmp(f, relop, cs, not).value, not, env)
            == SaysAll(if relop == EQ then Or else And, Cmps(f, relop, cs), not, env)
  {
    var es := Cmps(f, relop, cs);
    if es != [] {
      SaysCombineAll(es[0], if relop == EQ then Or else And, es[1..], not, env);
      assert es == [es[0]] + es[1..];
    }
  }

  /** What a comparison with constants parses to says what was written. */
  lemma ComparisonSays(f: Field, relop: Relop, list: ConstantList, not: bool, ctx: Ctx, env: Env)
    requires SymbolsOk(ctx.tab) && FieldOk(f, ctx.tab) && Comparable(f, relop, list, not, ctx)
    ensures var e := MakeCmp(f, relop, SetOf(TokensOf(list), list.Braced?, ctx), not);
            e.Some? && Says(e.value, not, env) == Holds(f, relop, list, ctx, env)
  {
    AcceptedIff(f, relop, list, not, ctx);
    ListHas(list, ctx);
    var cs := SetOf(TokensOf(list), list.Braced?, ctx);
    MadeSays(f, relop, cs, not, env);
    if f.info.sym.width == 0 {
      StringsSay(f, cs.names, list.Braced?, not, env);
    } else {
      NumbersSay(f, relop, cs.nums, list.Braced?, not, env);
    }
  }

  /** The operator with its sides exchanged. */
  lemma TurnedHolds(f: Field, relop: Relop, list: ConstantList, ctx: Ctx, env: Env)
    ensures Holds(f, RelopTurn(relop), list, ctx, env) == HoldsTurned(list, relop, f, ctx, env)
  {
    forall c: Written ensures NumberHolds(f, RelopTurn(relop), c, env) == NumberHoldsTurned(c, relop, f, env) { }
  }

  lemma TurnedComparable(f: Field, relop: Relop, list: ConstantList, not: bool, ctx: Ctx)
    ensures Comparable(f, RelopTurn(relop), list, not, ctx) <==> Comparable(f, relop, list, not, ctx)
  {
  }

  /** A field by itself is a test for not being 0. */
  lemma BareSays(f: Field, not: bool, env: Env)
    requires f.ofs + f.n <= f.info.sym.width && f.n > 0
    ensures var e := MakeCmp(f, NE, Numbers([Written({}, None, Hexadecimal)], false), not);
            && (e.Some? <==> (f.info.sym.level == Nominal ==> (f.info.expansion.Some? <==> !not)))
            && (e.Some? ==> Says(e.value, not, env) == (FieldNumber(f, None, env) != 0))
  {
    var c := Written({}, None, Hexadecimal);
    var cs := Numbers([c], false);
    assert c in [c];
    if MakeCmp(f, NE, cs, not).Some? {
      MadeSays(f, NE, cs, not, env);
      NumbersSay(f, NE, [c], false, not, env);
      NoBits(f.n);
    }
  }

  lemma {:induction false} NoBits(w: nat)
    ensures Number({}, w) == 0
  {
    if w > 0 {
      NoBits(w - 1);
    }
  }
}
