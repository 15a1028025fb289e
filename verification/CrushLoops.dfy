/** crush_cmps() and its helpers in the form of lib/expr.c, with their loops. */
module CrushLoops {
  import opened Util
  import opened Expressions
  import opened Simplification
  import opened Sorting
  import opened Crushing
  import SimplifyLoops

  lemma EachNext(sym: Symbol, a: Constant, cs: seq<Expr>, i: nat, done: seq<Expr>, all: seq<Expr>)
    requires a.Num? && NumCmps(cs) && i < |cs| && NumCmps(cs[i..]) && NumCmps(cs[i + 1..]) && cs[i].Cmp?
    requires cs[i].cst.Num?
    requires done + IntersectEach(sym, a, cs[i..]) == all
    ensures var c := Intersect(a, cs[i].cst);
            (if c.None? then done else done + [Cmp(sym, EQ, c.value)]) + IntersectEach(sym, a, cs[i + 1..]) == all
  {
    assert cs[i..][1..] == cs[i + 1..];
  }

  lemma NumTail(cs: seq<Expr>, i: nat)
    requires NumCmps(cs) && i <= |cs|
    ensures NumCmps(cs[i..])
  {
    forall c | c in cs[i..] ensures c.Cmp? && c.cst.Num? { assert c in cs; }
  }

  /** The comparisons that are compatible with 'a', appended to 'before'. */
  method IntersectAll(sym: Symbol, a: Constant, cs: seq<Expr>, before: seq<Expr>) returns (r: seq<Expr>)
    requires a.Num? && NumCmps(cs)
    ensures r == before + IntersectEach(sym, a, cs)
  {
    r := before;
    ghost var all := before + IntersectEach(sym, a, cs);
    assert cs[0..] == cs;
    for i := 0 to |cs|
      invariant NumCmps(cs[i..]) && r + IntersectEach(sym, a, cs[i..]) == all
    {
      assert cs[i] in cs;
      NumTail(cs, i + 1);
      EachNext(sym, a, cs, i, r, all);
      var c := Intersect(a, cs[i].cst);
      if c.Some? {
        r := r + [Cmp(sym, EQ, c.value)];
      }
    }
  }

  lemma CrossNext(sym: Symbol, a: Constant, xs: seq<Expr>, ys: seq<Expr>, i: nat, done: seq<Expr>, all: seq<Expr>)
    requires a.Num? && NumCmps(ys) && i < |xs| && NumCmps(xs[i..]) && NumCmps(xs[i + 1..]) && xs[i].Cmp?
    requires xs[i].cst.Num?
    requires done + CrossPairs(sym, a, xs[i..], ys) == all
    ensures var c := Intersect(a, xs[i].cst);
            (if c.None? then done else done + IntersectEach(sym, c.value, ys)) + CrossPairs(sym, a, xs[i + 1..], ys) ==
              all
  {
    assert xs[i..][1..] == xs[i + 1..];
  }

  /** All compatible combinations. */
  method CrossAll(sym: Symbol, a: Constant, xs: seq<Expr>, ys: seq<Expr>) returns (r: seq<Expr>)
    requires a.Num? && NumCmps(xs) && NumCmps(ys)
    ensures r == CrossPairs(sym, a, xs, ys)
  {
    r := [];
    ghost var all := CrossPairs(sym, a, xs, ys);
    assert xs[0..] == xs;
    for i := 0 to |xs|
      invariant NumCmps(xs[i..]) && r + CrossPairs(sym, a, xs[i..], ys) == all
    {
      assert xs[i] in xs;
      NumTail(xs, i + 1);
      CrossNext(sym, a, xs, ys, i, r, all);
      var c := Intersect(a, xs[i].cst);
      if c.Some? {
        r := IntersectAll(sym, c.value, ys, r);
      }
    }
  }

  /** What gathering the rest of the operands adds to what has been gathered. */
  function Gathered(kept: seq<Expr>, rest: Option<(Constant, seq<Expr>)>): (r: Option<(Constant, seq<Expr>)>) {
    match rest
    case None => None
    case Some((c, ors)) => Some((c, kept + ors))
  }

  ghost predicate NumItems(items: seq<Expr>) {
    forall x :: x in items && x.Cmp? ==> x.cst.Num?
  }

  lemma GatherNext(items: seq<Expr>, i: nat, acc: Constant, kept: seq<Expr>, all: Option<(Constant, seq<Expr>)>)
    requires acc.Num? && i < |items| && NumItems(items[i..]) && NumItems(items[i + 1..])
    requires Gathered(kept, Gather(items[i..], acc)) == all
    ensures items[i].Cmp? ==> items[i].cst.Num? && (Intersect(acc, items[i].cst).None? ==> all == None)
    ensures items[i].Cmp? && Intersect(acc, items[i].cst).Some? ==>
              Gathered(kept, Gather(items[i + 1..], Intersect(acc, items[i].cst).value)) == all
    ensures items[i].AndOr? ==> Gathered(kept + [items[i]], Gather(items[i + 1..], acc)) == all
    ensures items[i] == Bool(false) ==> all == None
    ensures items[i] == Bool(true) || items[i].Cond? ==> Gathered(kept, Gather(items[i + 1..], acc)) == all
  {
    var rest := items[i..];
    assert rest[0] == items[i] && rest[0] in rest && rest[1..] == items[i + 1..];
    if items[i].AndOr? {
      var g := Gather(rest[1..], acc);
      if g.Some? {
        assert kept + ([items[i]] + g.value.1) == kept + [items[i]] + g.value.1;
      }
    }
  }

  /** The walk of crush_and_numeric() over its crushed operands. */
  method GatherAll(items: seq<Expr>) returns (r: Option<(Constant, seq<Expr>)>)
    requires NumItems(items)
    ensures r == Gather(items, Num({}, {}))
  {
    var acc, kept: seq<Expr> := Num({}, {}), [];
    ghost var all := Gather(items, acc);
    assert items[0..] == items;
    assert all.Some? ==> [] + all.value.1 == all.value.1;
    for i := 0 to |items|
      invariant acc.Num? && NumItems(items[i..]) && Gathered(kept, Gather(items[i..], acc)) == all
    {
      ItemsTail(items, i + 1);
      GatherNext(items, i, acc, kept, all);
      match items[i] {
        case Cmp(_, _, cst) =>
          var c := Intersect(acc, cst);
          if c.None? {
            return None;
          }
          acc := c.value;
        case AndOr(_, _) => kept := kept + [items[i]];
        case Bool(b) =>
          if !b {
            return None;
          }
        case Cond(_, _) =>
      }
    }
    assert kept + [] == kept;
    return Some((acc, kept));
  }

  lemma ItemsTail(items: seq<Expr>, i: nat)
    requires NumItems(items) && i <= |items|
    ensures NumItems(items[i..])
  {
    forall x | x in items[i..] && x.Cmp? ensures x.cst.Num? { assert x in items; }
  }

  /** crush_or()'s removal of adjacent duplicates. */
  method Unique(es: seq<Expr>) returns (r: seq<Expr>)
    requires es != []
    ensures r == Dedup(es, CmpOrder)
  {
    r := [es[0]];
    ghost var all := Dedup(es, CmpOrder);
    for i := 1 to |es|
      invariant r != [] && r + DedupFrom(r[|r| - 1], es[i..], CmpOrder) == all
    {
      var last := r[|r| - 1];
      DedupNext(es, i, last, r, all);
      if CmpOrder(last, es[i]) != 0 {
        r := r + [es[i]];
      }
    }
  }

  lemma DedupNext(es: seq<Expr>, i: nat, last: Expr, done: seq<Expr>, all: seq<Expr>)
    requires i < |es| && done + DedupFrom(last, es[i..], CmpOrder) == all
    ensures if CmpOrder(last, es[i]) != 0 then done + [es[i]] + DedupFrom(es[i], es[i + 1..], CmpOrder) == all
            else done + DedupFrom(last, es[i + 1..], CmpOrder) == all
  {
    assert es[i..][0] == es[i] && es[i..][1..] == es[i + 1..];
  }

  /** crush_or(), after its operands have been crushed and merged into it. */
  method OrAll(flat: seq<Expr>, ghost items: seq<Expr>) returns (r: Expr)
    requires flat == Flatten(items)
    ensures r == OrItems(items)
  {
    r := SimplifyLoops.FixAndOr(Or, flat);
    if r.AndOr? && r.op == Or {
      var sorted := Sort(r.subs, CmpOrder);
      if sorted == [] {
        r := SimplifyLoops.FixAndOr(Or, []);
        return;
      }
      var unique := Unique(sorted);
      r := SimplifyLoops.FixAndOr(Or, unique);
    }
  }

  // ----- crush_cmps()

  lemma {:induction false} HeightAt(es: seq<Expr>, i: nat)
    requires i < |es|
    ensures Height(es[i]) <= MaxHeight(es)
  {
    if i > 0 {
      HeightAt(es[1..], i - 1);
    }
  }

  ghost predicate AllOn(es: seq<Expr>, sym: Symbol, tab: SymTab) {
    forall s :: s in es ==> OnSym(s, sym, tab)
  }

  lemma OnTail(es: seq<Expr>, i: nat, sym: Symbol, tab: SymTab)
    requires AllOn(es, sym, tab) && i <= |es|
    ensures AllOn(es[i..], sym, tab)
  {
    forall s | s in es[i..] ensures OnSym(s, sym, tab) { assert s in es; }
  }

  lemma CrushNext(es: seq<Expr>, i: nat, sym: Symbol, tab: SymTab, done: seq<Expr>, all: seq<Expr>)
    requires i < |es| && AllOn(es[i..], sym, tab) && AllOn(es[i + 1..], sym, tab) && OnSym(es[i], sym, tab)
    requires done + CrushAll(es[i..], sym, tab) == all
    ensures done + [Crush(es[i], sym, tab)] + CrushAll(es[i + 1..], sym, tab) == all
  {
    assert es[i..][0] == es[i] && es[i..][1..] == es[i + 1..];
  }

  lemma {:induction false} FlattenMore(items: seq<Expr>, e: Expr)
    ensures Flatten(items + [e]) == Flatten(items) + Splice(Or, e)
  {
    if items == [] {
      assert items + [e] == [e] && [e][1..] == [];
    } else {
      assert (items + [e])[1..] == items[1..] + [e];
      FlattenMore(items[1..], e);
    }
  }

  /** crush_cmps() */
  method CrushExpr(e: Expr, sym: Symbol, ghost tab: SymTab) returns (r: Expr)
    requires OnSym(e, sym, tab)
    ensures r == Crush(e, sym, tab)
    decreases 2 * Height(e), if e.AndOr? then CountOrs(e.subs) else 0, 1
  {
    match e {
      case Cmp(_, _, _) => r := e;
      case AndOr(Or, subs) =>
        var items := CrushEach(e, sym, tab);
        var flat := FlattenAll(items);
        r := OrAll(flat, items);
      case AndOr(And, subs) =>
        var items := CrushEach(e, sym, tab);
        if sym.width == 0 {
          StringItems(items, sym, tab);
          r := AndString(items);
        } else {
          r := CrushAndNumeric(e, items, sym, tab);
        }
    }
  }

  lemma StringItems(items: seq<Expr>, sym: Symbol, tab: SymTab)
    requires Items(items, sym, tab) && sym.width == 0
    ensures forall x :: x in items && x.Cmp? ==> x.cst.Str?
  {
  }

  /** The walk that crushes each operand. */
  method CrushEach(e: Expr, sym: Symbol, ghost tab: SymTab) returns (items: seq<Expr>)
    requires OnSym(e, sym, tab) && e.AndOr?
    ensures items == CrushAll(e.subs, sym, tab)
    decreases 2 * Height(e), CountOrs(e.subs), 0
  {
    var subs := e.subs;
    items := [];
    ghost var all := CrushAll(subs, sym, tab);
    assert subs[0..] == subs;
    for i := 0 to |subs|
      invariant AllOn(subs[i..], sym, tab) && items + CrushAll(subs[i..], sym, tab) == all
    {
      assert subs[i] in subs;
      OnTail(subs, i + 1, sym, tab);
      HeightAt(subs, i);
      CrushNext(subs, i, sym, tab, items, all);
      var c := CrushExpr(subs[i], sym, tab);
      items := items + [c];
    }
  }

  method FlattenAll(items: seq<Expr>) returns (flat: seq<Expr>)
    ensures flat == Flatten(items)
  {
    flat := [];
    for i := 0 to |items|
      invariant flat == Flatten(items[..i])
    {
      assert items[..i + 1] == items[..i] + [items[i]];
      FlattenMore(items[..i], items[i]);
      flat := flat + Splice(Or, items[i]);
    }
    assert items[..|items|] == items;
  }

  ghost predicate NumOrs(ors: seq<Expr>) {
    forall o :: o in ors ==> o.AndOr? && NumCmps(o.subs)
  }

  /** crush_and_numeric() with at most one disjunction left. */
  method ShortAnd(sym: Symbol, acc: Constant, ors: seq<Expr>) returns (r: Expr)
    requires acc.Num? && |ors| < 2 && NumOrs(ors)
    ensures r == AndShort(sym, acc, ors)
  {
    if |ors| == 0 {
      r := if acc.mask == {} then Bool(true) else Cmp(sym, EQ, acc);
    } else {
      assert ors[0] in ors;
      var es := IntersectAll(sym, acc, ors[0].subs, []);
      assert es == IntersectEach(sym, acc, ors[0].subs);
      r := Junction(Or, es);
    }
  }

  /** crush_and_numeric() with two or more: the first two are multiplied out. */
  method MultiplyOut(sym: Symbol, acc: Constant, ors: seq<Expr>) returns (r: Expr)
    requires acc.Num? && |ors| >= 2 && NumOrs(ors)
    ensures r == PairUp(sym, acc, ors)
  {
    assert ors[0] in ors && ors[1] in ors;
    var pairs := CrossAll(sym, acc, ors[0].subs, ors[1].subs);
    if pairs == [] {
      return Bool(false);
    }
    r := Junction(Or, pairs);
    if |ors| > 2 {
      r := AndOr(And, [r] + ors[2..]);
    }
  }

  /** What crushing an AND over a number comes to, given its crushed operands. */
  lemma CrushAndStep(e: Expr, items: seq<Expr>, sym: Symbol, tab: SymTab)
    requires OnSym(e, sym, tab) && e.AndOr? && e.op == And && sym.width > 0 && items == CrushAll(e.subs, sym, tab)
    ensures NumItems(items)
    ensures var g := Gather(items, Num({}, {}));
            if g.None? then Crush(e, sym, tab) == Bool(false)
            else
              var (acc, ors) := g.value;
              && acc.Num? && NumOrs(ors)
              && if |ors| < 2 then Crush(e, sym, tab) == AndShort(sym, acc, ors)
                 else
                   var next := PairUp(sym, acc, ors);
                   if next.Bool? then Crush(e, sym, tab) == next
                   else
                     && OnSym(next, sym, tab) && Crush(e, sym, tab) == Crush(next, sym, tab)
                     && (Height(next) < Height(e) ||
                         (Height(next) == Height(e) && next.AndOr? && CountOrs(next.subs) < CountOrs(e.subs)))
  {
    OnSymInTab(e, sym, tab);
    GatherReady(items, sym, tab);
    var g := Gather(items, Num({}, {}));
    if g.Some? && |g.value.1| >= 2 {
      PairUpForm(sym, g.value.0, g.value.1, tab);
      CountOrsHeight(e.subs);
    }
  }

  /** The rest of crush_and_numeric(): 'items' are the crushed operands. */
  method CrushAndNumeric(e: Expr, items: seq<Expr>, sym: Symbol, ghost tab: SymTab) returns (r: Expr)
    requires OnSym(e, sym, tab) && e.AndOr? && e.op == And && sym.width > 0 && items == CrushAll(e.subs, sym, tab)
    ensures r == Crush(e, sym, tab)
    decreases 2 * Height(e), CountOrs(e.subs), 0
  {
    CrushAndStep(e, items, sym, tab);
    var g := GatherAll(items);
    if g.None? {
      return Bool(false);
    }
    var (acc, ors) := g.value;
    if |ors| < 2 {
      r := ShortAnd(sym, acc, ors);
    } else {
      r := MultiplyOut(sym, acc, ors);
      if !r.Bool? {
        r := CrushExpr(r, sym, tab);
      }
    }
  }
}
