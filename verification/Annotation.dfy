/** expr_annotate(): prerequisites, subfields and predicate symbols. */
module Annotation {
  import opened Util
  import opened Bits
  import opened Expressions
  import opened Simplification
  import opened Crushing

  /** What the symbol table says about a symbol.  A subfield has a parent and an
    * offset in it; a predicate has an expansion; any symbol may have
    * prerequisites.  Expansions and prerequisites are kept parsed. */
  datatype Info = Info(sym: Symbol, parent: Option<(Symbol, nat)>, expansion: Option<Expr>, prereqs: Option<Expr>)

  type Table = map<string, Info>

  /** Names ordered so that a symbol only depends on smaller ones. */
  type Rank = string -> nat

  /** More than the rank of every symbol in 'e'. */
  function Bound(e: Expr, rank: Rank): (r: nat)
    decreases e, 1
  {
    match e
    case Cmp(sym, _, _) => rank(sym.name) + 1
    case AndOr(_, subs) => BoundSeq(subs, rank)
    case _ => 0
  }

  function BoundSeq(es: seq<Expr>, rank: Rank): (r: nat)
    decreases es, 0
  {
    if es == [] then 0 else Max(Bound(es[0], rank), BoundSeq(es[1..], rank))
  }

  /** What a test of a predicate symbol asks for. */
  predicate Positive(relop: Relop, cst: Constant)
    requires cst.Num?
  {
    (0 in cst.value) != (relop == NE)
  }

  /** mf_subvalue_shift() on value and mask. */
  function ShiftConstant(c: Constant, ofs: nat): (r: Constant) {
    match c
    case Num(value, mask) => Num(ShiftBits(value, ofs), ShiftBits(mask, ofs))
    case Str(_) => c
  }

  /** A comparison as the parser leaves it, on any kind of symbol. */
  predicate RawCmp(sym: Symbol, relop: Relop, cst: Constant, tab: Table)
  {
    && sym.name in tab && tab[sym.name].sym == sym
    && (sym.width > 0 <==> cst.Num?)
    && (cst.Str? ==> relop == EQ)
    && (cst.Num? ==>
          && cst.value <= cst.mask <= Range(0, sym.width)
          && (IsRelational(relop) ==> FindRange(cst.mask, sym.width).1 > 0))
    && (tab[sym.name].expansion.Some? ==>
          cst.Num? && !IsRelational(relop) && (sym.level == Nominal ==> Positive(relop, cst)))
  }

  predicate Raw(e: Expr, tab: Table)
  {
    match e
    case Cmp(sym, relop, cst) => RawCmp(sym, relop, cst, tab)
    case AndOr(op, subs) => |subs| >= 2 && forall s :: s in subs ==> Raw(s, tab) && !(s.AndOr? && s.op == op)
    case _ => true
  }

  /** No string symbol in 'e', nor in anything that 'e' expands to. */
  predicate StringFree(e: Expr, tab: Table, rank: Rank)
    decreases Bound(e, rank), e, 1
  {
    match e
    case Cmp(sym, _, cst) =>
      && cst.Num? && sym.name in tab
      && (tab[sym.name].prereqs.Some? ==>
            Bound(tab[sym.name].prereqs.value, rank) <= rank(sym.name)
              && StringFree(tab[sym.name].prereqs.value, tab, rank))
      && (tab[sym.name].expansion.Some? ==>
            Bound(tab[sym.name].expansion.value, rank) <= rank(sym.name)
              && StringFree(tab[sym.name].expansion.value, tab, rank))
    case AndOr(_, subs) => StringFreeSeq(subs, tab, rank)
    case _ => true
  }

  predicate StringFreeSeq(es: seq<Expr>, tab: Table, rank: Rank)
    decreases BoundSeq(es, rank), es, 0
  {
    es != [] ==> StringFree(es[0], tab, rank) && StringFreeSeq(es[1..], tab, rank)
  }

  /** One entry: dependencies have smaller rank, a subfield lies inside a field
    * that is not itself a subfield, and a predicate that may be negated never
    * involves a string. */
  predicate InfoOk(name: string, tab: Table, rank: Rank)
    requires name in tab
  {
    var info := tab[name];
    && info.sym.name == name
    && (info.prereqs.Some? ==> Raw(info.prereqs.value, tab) && Bound(info.prereqs.value, rank) <= rank(name))
    && (info.parent.Some? ==>
          var (p, ofs) := info.parent.value;
          && info.expansion.None? && info.sym.width > 0
          && p.name in tab && tab[p.name].sym == p && tab[p.name].parent.None? && tab[p.name].expansion.None?
          && ofs + info.sym.width <= p.width && rank(p.name) < rank(name))
    && (info.expansion.Some? ==>
          && info.sym.width == 1
          && Raw(info.expansion.value, tab) && Bound(info.expansion.value, rank) <= rank(name)
          && (info.sym.level != Nominal ==> StringFree(info.expansion.value, tab, rank)))
  }

  predicate TableOk(tab: Table, rank: Rank) {
    forall name :: name in tab ==> InfoOk(name, tab, rank)
  }

  /** The fields, which annotated expressions are made of. */
  function Fields(tab: Table): (r: SymTab) {
    map name | name in tab :: tab[name].sym
  }

  /** Nothing left to expand. */
  predicate Plain(e: Expr, tab: Table)
  {
    match e
    case Cmp(sym, relop, cst) =>
      RawCmp(sym, relop, cst, tab) && tab[sym.name].parent.None? && tab[sym.name].expansion.None?
    case AndOr(op, subs) => |subs| >= 2 && forall s :: s in subs ==> Plain(s, tab) && !(s.AndOr? && s.op == op)
    case _ => true
  }

  predicate NumOnly(e: Expr)
  {
    match e
    case Cmp(_, _, cst) => cst.Num?
    case AndOr(_, subs) => forall s :: s in subs ==> NumOnly(s)
    case _ => true
  }

  lemma PlainIsRaw(e: Expr, tab: Table)
    requires Plain(e, tab)
    ensures Raw(e, tab)
  {
  }

  lemma PlainIsWf(e: Expr, tab: Table)
    requires Plain(e, tab)
    ensures Wf(e, Fields(tab))
  {
  }

  // ----- bounds

  lemma {:induction false} BoundMember(es: seq<Expr>, e: Expr, rank: Rank)
    requires e in es
    ensures Bound(e, rank) <= BoundSeq(es, rank)
  {
    if e != es[0] {
      assert e in es[1..] by { assert es == [es[0]] + es[1..]; }
      BoundMember(es[1..], e, rank);
    }
  }

  lemma {:induction false} BoundConcat(a: seq<Expr>, b: seq<Expr>, rank: Rank)
    ensures BoundSeq(a + b, rank) == Max(BoundSeq(a, rank), BoundSeq(b, rank))
  {
    if a == [] {
      assert a + b == b;
    } else {
      assert (a + b)[1..] == a[1..] + b;
      BoundConcat(a[1..], b, rank);
    }
  }

  lemma BoundSplice(op: Op, e: Expr, rank: Rank)
    ensures BoundSeq(Splice(op, e), rank) == Bound(e, rank)
  {
    assert [e][1..] == [];
  }

  lemma {:induction false} UniqueBound(e: Expr, sym: Symbol, rank: Rank, tab: Table)
    requires Raw(e, tab) && UniqueSym(e) == Some(sym)
    ensures rank(sym.name) < Bound(e, rank) && sym.name in tab && tab[sym.name].sym == sym
  {
    if e.AndOr? {
      assert e.subs[0] in e.subs;
      UniqueBound(e.subs[0], sym, rank, tab);
      BoundMember(e.subs, e.subs[0], rank);
    }
  }

  // ----- steps that keep an expression plain

  predicate PlainList(op: Op, es: seq<Expr>, tab: Table) {
    forall x :: x in es ==> Plain(x, tab) && !(x.AndOr? && x.op == op)
  }

  lemma PlainSplice(op: Op, e: Expr, tab: Table)
    requires Plain(e, tab)
    ensures PlainList(op, Splice(op, e), tab) && Splice(op, e) != []
    ensures NumOnly(e) ==> forall x :: x in Splice(op, e) ==> NumOnly(x)
  {
  }

  lemma PlainCombine(a: Expr, b: Expr, tab: Table, rank: Rank)
    requires Plain(a, tab) && Plain(b, tab)
    ensures Plain(Combine(And, a, b), tab)
    ensures Bound(Combine(And, a, b), rank) == Max(Bound(a, rank), Bound(b, rank))
    ensures NumOnly(a) && NumOnly(b) ==> NumOnly(Combine(And, a, b))
  {
    PlainSplice(And, a, tab);
    PlainSplice(And, b, tab);
    BoundSplice(And, a, rank);
    BoundSplice(And, b, rank);
    BoundConcat(Splice(And, a), Splice(And, b), rank);
  }

  lemma {:induction false} PlainNot(e: Expr, tab: Table, rank: Rank)
    requires Plain(e, tab) && NumOnly(e)
    ensures Plain(Not(e), tab) && NumOnly(Not(e)) && Bound(Not(e), rank) == Bound(e, rank)
    decreases e, 1
  {
    if e.AndOr? {
      PlainNotAll(e.subs, Dual(e.op), tab, rank);
    }
  }

  lemma {:induction false} PlainNotAll(es: seq<Expr>, op: Op, tab: Table, rank: Rank)
    requires PlainList(Dual(op), es, tab) && forall x :: x in es ==> NumOnly(x)
    ensures PlainList(op, NotAll(es), tab) && (forall x :: x in NotAll(es) ==> NumOnly(x))
    ensures BoundSeq(NotAll(es), rank) == BoundSeq(es, rank)
    decreases es, 0
  {
    if es != [] {
      assert es[0] in es && es == [es[0]] + es[1..];
      PlainNot(es[0], tab, rank);
      PlainNotAll(es[1..], op, tab, rank);
      assert ([Not(es[0])] + NotAll(es[1..]))[1..] == NotAll(es[1..]);
    }
  }

  lemma ShiftRange(lo: nat, hi: nat, ofs: nat)
    ensures ShiftBits(Range(lo, hi), ofs) == Range(lo + ofs, hi + ofs)
  {
  }

  /** A test of a subfield is a well-formed test of its parent. */
  lemma ParentCmp(sym: Symbol, relop: Relop, cst: Constant, tab: Table, rank: Rank)
    requires RawCmp(sym, relop, cst, tab) && InfoOk(sym.name, tab, rank) && tab[sym.name].parent.Some?
    ensures var (p, ofs) := tab[sym.name].parent.value;
            RawCmp(p, relop, ShiftConstant(cst, ofs), tab)
  {
    var (p, ofs) := tab[sym.name].parent.value;
    var c := ShiftConstant(cst, ofs);
    assert c.mask <= Range(0, p.width);
    if IsRelational(relop) {
      FindRangeExact(cst.mask, sym.width);
      var (start, n) := FindRange(cst.mask, sym.width);
      ShiftRange(start, start + n, ofs);
      FindRangeExact(c.mask, p.width);
    }
  }

  lemma {:induction false} UniqueStringFree(e: Expr, sym: Symbol, tab: Table, rank: Rank)
    requires Raw(e, tab) && UniqueSym(e) == Some(sym) && StringFree(e, tab, rank) && sym.name in tab
    ensures tab[sym.name].prereqs.Some? ==> StringFree(tab[sym.name].prereqs.value, tab, rank)
  {
    if e.AndOr? {
      assert e.subs[0] in e.subs;
      UniqueStringFree(e.subs[0], sym, tab, rank);
    }
  }

  // ----- the algorithm

  /** What annotation promises about its result: it is plain, no symbol in it
    * ranks higher than before, and strings appear only if they had to. */
  ghost predicate Fine(e: Expr, r: Expr, tab: Table, rank: Rank) {
    && Plain(r, tab) && Bound(r, rank) <= Bound(e, rank)
    && (StringFree(e, tab, rank) ==> NumOnly(r))
  }

  ghost predicate FineList(op: Op, es: seq<Expr>, r: seq<Expr>, tab: Table, rank: Rank) {
    && PlainList(op, r, tab) && |r| >= |es| && BoundSeq(r, rank) <= BoundSeq(es, rank)
    && (StringFreeSeq(es, tab, rank) ==> forall x :: x in r ==> NumOnly(x))
  }

  /** expr_annotate__().  Without 'append', prerequisites of the symbols in 'e'
    * itself are left out, and an expression with nothing to expand is
    * unchanged. */
  function Annotate(e: Expr, append: bool, nesting: set<string>, tab: Table, ghost rank: Rank): (r: Option<Expr>)
    requires TableOk(tab, rank) && Raw(e, tab)
    ensures r.Some? ==> Fine(e, r.value, tab, rank)
    ensures r.Some? && !append && Plain(e, tab) ==> r.value == e
    decreases Bound(e, rank), e, if append then 3 else 1
  {
    match e
    case Cmp(sym, relop, cst) =>
      if sym.name in nesting then None
      else
        assert InfoOk(sym.name, tab, rank);
        var inner := nesting + {sym.name};
        var expanded := Expand(sym, relop, cst, inner, tab, rank);
        var prereqs := tab[sym.name].prereqs;
        if !append || prereqs.None? then expanded
        else
          (match (expanded, Annotate(prereqs.value, true, inner, tab, rank))
           case (Some(x), Some(pre)) =>
             PlainCombine(x, pre, tab, rank);
             Some(Combine(And, x, pre))
           case _ => None)
    case AndOr(op, subs) =>
      var sym := UniqueSym(e);
      if append && sym.Some? && sym.value.name in tab && tab[sym.value.name].prereqs.Some? then
        Hoist(e, sym.value, nesting, tab, rank)
      else
        (match AnnotateList(op, subs, append && sym.None?, nesting, tab, rank)
         case None => None
         case Some(es) => Some(AndOr(op, es)))
    case _ => Some(e)
  }

  /** A comparison on its own: moved to the parent field, or replaced by the
    * expansion of its predicate. */
  function Expand(sym: Symbol, relop: Relop, cst: Constant, inner: set<string>, tab: Table,
                  ghost rank: Rank): (r: Option<Expr>)
    requires TableOk(tab, rank) && RawCmp(sym, relop, cst, tab)
    ensures r.Some? ==> Fine(Cmp(sym, relop, cst), r.value, tab, rank)
    ensures r.Some? && Plain(Cmp(sym, relop, cst), tab) ==> r.value == Cmp(sym, relop, cst)
    decreases rank(sym.name) + 1, Cmp(sym, relop, cst), 0
  {
    assert InfoOk(sym.name, tab, rank);
    var info := tab[sym.name];
    if info.parent.Some? then
      ParentCmp(sym, relop, cst, tab, rank);
      Some(Cmp(info.parent.value.0, relop, ShiftConstant(cst, info.parent.value.1)))
    else if info.expansion.Some? then
      (match Annotate(info.expansion.value, true, inner, tab, rank)
       case None => None
       case Some(p) =>
         if Positive(relop, cst) then Some(p)
         else
           PlainNot(p, tab, rank);
           Some(Not(p)))
    else Some(Cmp(sym, relop, cst))
  }

  /** An AND or OR tree over one symbol: that symbol's prerequisites are applied
    * once, and then annotated again along with the tree. */
  function Hoist(e: Expr, sym: Symbol, nesting: set<string>, tab: Table, ghost rank: Rank): (r: Option<Expr>)
    requires TableOk(tab, rank) && Raw(e, tab) && e.AndOr?
    requires UniqueSym(e) == Some(sym) && sym.name in tab && tab[sym.name].prereqs.Some?
    ensures r.Some? ==> Fine(e, r.value, tab, rank)
    decreases Bound(e, rank), e, 2
  {
    UniqueBound(e, sym, rank, tab);
    assert InfoOk(sym.name, tab, rank);
    match Annotate(tab[sym.name].prereqs.value, true, nesting, tab, rank)
    case None => None
    case Some(pre) =>
      PlainSplice(And, pre, tab);
      BoundSplice(And, pre, rank);
      PlainListRaw(And, Splice(And, pre), tab);
      var tree :=
        if e.op == And then AnnotateList(And, e.subs, false, nesting, tab, rank)
        else
          (match Annotate(e, false, nesting, tab, rank)
           case None => None
           case Some(x) =>
             PlainSplice(And, x, tab);
             BoundSplice(And, x, rank);
             Some(Splice(And, x)));
      (match (tree, AnnotateList(And, Splice(And, pre), false, nesting, tab, rank))
       case (Some(a), Some(b)) =>
         HoistFine(e, sym, pre, a, b, tab, rank);
         Some(AndOr(And, a + b))
       case _ => None)
  }

  lemma FineCons(op: Op, es: seq<Expr>, first: Expr, rest: seq<Expr>, tab: Table, rank: Rank)
    requires es != [] && Fine(es[0], first, tab, rank) && FineList(op, es[1..], rest, tab, rank)
    ensures FineList(op, es, Splice(op, first) + rest, tab, rank)
    ensures PlainList(op, es, tab) && first == es[0] && rest == es[1..] ==> Splice(op, first) + rest == es
  {
    assert es[0] in es && es == [es[0]] + es[1..];
    PlainSplice(op, first, tab);
    BoundSplice(op, first, rank);
    BoundConcat(Splice(op, first), rest, rank);
  }

  /** Each operand in turn, merged into the 'op' node. */
  function AnnotateList(op: Op, es: seq<Expr>, append: bool, nesting: set<string>, tab: Table,
                        ghost rank: Rank): (r: Option<seq<Expr>>)
    requires TableOk(tab, rank) && forall e :: e in es ==> Raw(e, tab)
    ensures r.Some? ==> FineList(op, es, r.value, tab, rank)
    ensures r.Some? && !append && PlainList(op, es, tab) ==> r.value == es
    decreases BoundSeq(es, rank), es, 0
  {
    if es == [] then Some([])
    else
      assert es[0] in es && es == [es[0]] + es[1..];
      match (Annotate(es[0], append, nesting, tab, rank), AnnotateList(op, es[1..], append, nesting, tab, rank))
      case (Some(first), Some(rest)) =>
        FineCons(op, es, first, rest, tab, rank);
        Some(Splice(op, first) + rest)
      case _ => None
  }

  lemma PlainListRaw(op: Op, es: seq<Expr>, tab: Table)
    requires PlainList(op, es, tab)
    ensures forall e :: e in es ==> Raw(e, tab)
  {
    forall e | e in es ensures Raw(e, tab) { PlainIsRaw(e, tab); }
  }

  lemma HoistFine(e: Expr, sym: Symbol, pre: Expr, a: seq<Expr>, b: seq<Expr>, tab: Table, rank: Rank)
    requires TableOk(tab, rank) && Raw(e, tab) && e.AndOr? && UniqueSym(e) == Some(sym)
    requires sym.name in tab && tab[sym.name].prereqs.Some? && Fine(tab[sym.name].prereqs.value, pre, tab, rank)
    requires PlainList(And, a, tab) && |a| >= 1 && BoundSeq(a, rank) <= Bound(e, rank)
    requires StringFree(e, tab, rank) ==> forall x :: x in a ==> NumOnly(x)
    requires b == Splice(And, pre)
    ensures Fine(e, AndOr(And, a + b), tab, rank)
  {
    assert InfoOk(sym.name, tab, rank);
    UniqueBound(e, sym, rank, tab);
    PlainSplice(And, pre, tab);
    BoundSplice(And, pre, rank);
    BoundConcat(a, b, rank);
    var r := AndOr(And, a + b);
    assert Bound(r, rank) <= Bound(e, rank);
    if StringFree(e, tab, rank) {
      UniqueStringFree(e, sym, tab, rank);
      forall x | x in r.subs ensures NumOnly(x) { }
    }
  }

  // ----- what an expression means before annotation

  /** The naive meaning: prerequisites count at every comparison (unless
    * 'append' is false), a subfield is compared by its own bits, a predicate by
    * the meaning of its expansion. */
  ghost predicate Meaning(e: Expr, append: bool, tab: Table, rank: Rank, env: Env)
    requires TableOk(tab, rank) && Raw(e, tab)
    decreases Bound(e, rank), e, 1
  {
    match e
    case Cmp(sym, relop, cst) =>
      assert InfoOk(sym.name, tab, rank);
      var info := tab[sym.name];
      && (append && info.prereqs.Some? ==> Meaning(info.prereqs.value, true, tab, rank, env))
      && (if info.parent.Some? then
            var (p, ofs) := info.parent.value;
            RelopTest(relop, Compare(Extract(env.pkt(p), ofs, sym.width) * cst.mask, cst.value, sym.width))
          else if info.expansion.Some? then
            Meaning(info.expansion.value, true, tab, rank, env) == Positive(relop, cst)
          else EvalCmp(sym, relop, cst, env))
    case AndOr(op, subs) => MeaningSeq(op, subs, append, tab, rank, env)
    case Bool(b) => b
    case Cond(not, port) => env.resident(port) != not
  }

  ghost predicate MeaningSeq(op: Op, es: seq<Expr>, append: bool, tab: Table, rank: Rank, env: Env)
    requires TableOk(tab, rank) && forall e :: e in es ==> Raw(e, tab)
    decreases BoundSeq(es, rank), es, 0
  {
    if es == [] then op == And
    else
      assert es[0] in es && es == [es[0]] + es[1..];
      Join(op, Meaning(es[0], append, tab, rank, env), MeaningSeq(op, es[1..], append, tab, rank, env))
  }

  // ----- subfields

  lemma {:induction false} CompareTrim(a: Bits, b: Bits, w1: nat, w2: nat)
    requires w1 <= w2 && forall i :: w1 <= i < w2 ==> i !in a && i !in b
    ensures Compare(a, b, w2) == Compare(a, b, w1)
  {
    if w1 < w2 {
      assert w2 - 1 !in a && w2 - 1 !in b;
      CompareTrim(a, b, w1, w2 - 1);
    }
  }

  lemma {:induction false} CompareShift(a: Bits, b: Bits, a1: Bits, b1: Bits, ofs: nat, w: nat)
    requires forall i :: 0 <= i < w ==> (i in a1 <==> i + ofs in a) && (i in b1 <==> i + ofs in b)
    requires forall i :: 0 <= i < ofs ==> i !in a && i !in b
    ensures Compare(a, b, ofs + w) == Compare(a1, b1, w)
  {
    if w == 0 {
      CompareZero(a, b, ofs);
    } else {
      CompareShift(a, b, a1, b1, ofs, w - 1);
      assert w - 1 in a1 <==> w - 1 + ofs in a;
      assert w - 1 in b1 <==> w - 1 + ofs in b;
    }
  }

  /** Testing the parent with shifted value and mask tests the subfield. */
  lemma SubfieldMeaning(pkt: Bits, value: Bits, mask: Bits, ofs: nat, w: nat, pw: nat)
    requires value <= mask <= Range(0, w) && ofs + w <= pw
    ensures Compare(pkt * ShiftBits(mask, ofs), ShiftBits(value, ofs), pw)
            == Compare(Extract(pkt, ofs, w) * mask, value, w)
  {
    var a, b := pkt * ShiftBits(mask, ofs), ShiftBits(value, ofs);
    CompareTrim(a, b, ofs + w, pw);
    CompareShift(a, b, Extract(pkt, ofs, w) * mask, value, ofs, w);
  }

  // ----- hoisting

  lemma {:induction false} HoistMeaning(e: Expr, sym: Symbol, tab: Table, rank: Rank, env: Env)
    requires TableOk(tab, rank) && Raw(e, tab) && UniqueSym(e) == Some(sym)
    requires sym.name in tab && tab[sym.name].prereqs.Some? && Raw(tab[sym.name].prereqs.value, tab)
    ensures Meaning(e, true, tab, rank, env)
            <==> Meaning(tab[sym.name].prereqs.value, true, tab, rank, env) && Meaning(e, false, tab, rank, env)
    decreases e, 1
  {
    if e.AndOr? {
      HoistMeaningSeq(e.op, e.subs, sym, tab, rank, env);
    }
  }

  lemma {:induction false} HoistMeaningSeq(op: Op, es: seq<Expr>, sym: Symbol, tab: Table, rank: Rank, env: Env)
    requires TableOk(tab, rank) && UniqueSeq(es) == Some(sym) && forall e :: e in es ==> Raw(e, tab)
    requires sym.name in tab && tab[sym.name].prereqs.Some? && Raw(tab[sym.name].prereqs.value, tab)
    ensures MeaningSeq(op, es, true, tab, rank, env)
            <==> Meaning(tab[sym.name].prereqs.value, true, tab, rank, env) && MeaningSeq(op, es, false, tab, rank, env)
    decreases es, 0
  {
    assert es[0] in es && es == [es[0]] + es[1..];
    HoistMeaning(es[0], sym, tab, rank, env);
    if |es| > 1 {
      HoistMeaningSeq(op, es[1..], sym, tab, rank, env);
    } else {
      assert es[1..] == [];
    }
  }

  /** Without prerequisites there is nothing to hoist. */
  lemma {:induction false} NoPrereqs(e: Expr, sym: Symbol, tab: Table, rank: Rank, env: Env)
    requires TableOk(tab, rank) && Raw(e, tab) && UniqueSym(e) == Some(sym)
    requires sym.name in tab && tab[sym.name].prereqs.None?
    ensures Meaning(e, true, tab, rank, env) <==> Meaning(e, false, tab, rank, env)
    decreases e, 1
  {
    if e.AndOr? {
      NoPrereqsSeq(e.op, e.subs, sym, tab, rank, env);
    }
  }

  lemma {:induction false} NoPrereqsSeq(op: Op, es: seq<Expr>, sym: Symbol, tab: Table, rank: Rank, env: Env)
    requires TableOk(tab, rank) && UniqueSeq(es) == Some(sym) && forall e :: e in es ==> Raw(e, tab)
    requires sym.name in tab && tab[sym.name].prereqs.None?
    ensures MeaningSeq(op, es, true, tab, rank, env) <==> MeaningSeq(op, es, false, tab, rank, env)
    decreases es, 0
  {
    assert es[0] in es && es == [es[0]] + es[1..];
    NoPrereqs(es[0], sym, tab, rank, env);
    if |es| > 1 {
      NoPrereqsSeq(op, es[1..], sym, tab, rank, env);
    } else {
      assert es[1..] == [];
    }
  }

  lemma NumOnlyKnown(e: Expr, env: Env)
    requires NumOnly(e)
    ensures StringsKnown(e, env)
  {
  }

  // ----- correctness

  /** Every symbol being expanded ranks above 'bound'. */
  ghost predicate Above(nesting: set<string>, bound: nat, rank: Rank) {
    forall s :: s in nesting ==> rank(s) >= bound
  }

  /** On an acyclic symbol table annotation always succeeds and yields an
    * expression with the naive meaning. */
  lemma {:induction false} AnnotateCorrect(e: Expr, append: bool, nesting: set<string>, tab: Table, rank: Rank,
                                           env: Env)
    requires TableOk(tab, rank) && Raw(e, tab) && Above(nesting, Bound(e, rank), rank)
    ensures var r := Annotate(e, append, nesting, tab, rank);
            r.Some? && (Eval(r.value, env) <==> Meaning(e, append, tab, rank, env))
    decreases Bound(e, rank), e, if append then 3 else 1
  {
    match e
    case Cmp(sym, relop, cst) =>
      assert InfoOk(sym.name, tab, rank);
      var inner := nesting + {sym.name};
      ExpandCorrect(sym, relop, cst, inner, tab, rank, env);
      var prereqs := tab[sym.name].prereqs;
      if append && prereqs.Some? {
        AnnotateCorrect(prereqs.value, true, inner, tab, rank, env);
        EvalCombine(And, Expand(sym, relop, cst, inner, tab, rank).value,
                    Annotate(prereqs.value, true, inner, tab, rank).value, env);
      }
    case AndOr(op, subs) =>
      var sym := UniqueSym(e);
      if append && sym.Some? && sym.value.name in tab && tab[sym.value.name].prereqs.Some? {
        HoistCorrect(e, sym.value, nesting, tab, rank, env);
      } else {
        AnnotateListCorrect(op, subs, append && sym.None?, nesting, tab, rank, env);
        EvalAndOr(op, AnnotateList(op, subs, append && sym.None?, nesting, tab, rank).value, env);
        if append && sym.Some? {
          UniqueBound(e, sym.value, rank, tab);
          NoPrereqs(e, sym.value, tab, rank, env);
        }
      }
    case _ =>
  }

  lemma {:induction false} ExpandCorrect(sym: Symbol, relop: Relop, cst: Constant, inner: set<string>, tab: Table,
                                         rank: Rank, env: Env)
    requires TableOk(tab, rank) && RawCmp(sym, relop, cst, tab) && Above(inner, rank(sym.name), rank)
    ensures var r := Expand(sym, relop, cst, inner, tab, rank);
            r.Some? && (Eval(r.value, env) <==> Meaning(Cmp(sym, relop, cst), false, tab, rank, env))
    decreases rank(sym.name) + 1, Cmp(sym, relop, cst), 0
  {
    assert InfoOk(sym.name, tab, rank);
    var info := tab[sym.name];
    if info.parent.Some? {
      var (p, ofs) := info.parent.value;
      SubfieldMeaning(env.pkt(p), cst.value, cst.mask, ofs, sym.width, p.width);
    } else if info.expansion.Some? {
      AnnotateCorrect(info.expansion.value, true, inner, tab, rank, env);
      var x := Annotate(info.expansion.value, true, inner, tab, rank).value;
      if !Positive(relop, cst) {
        NumOnlyKnown(x, env);
        EvalNot(x, env);
      }
    }
  }

  /** The prerequisites stay as they are when they are annotated again, and so do
    * their values. */
  lemma {:induction false} HoistedPrereqs(pre: Expr, nesting: set<string>, tab: Table, rank: Rank, env: Env)
    requires TableOk(tab, rank) && Plain(pre, tab) && Above(nesting, Bound(pre, rank), rank)
    ensures var es := Splice(And, pre);
            && (forall e :: e in es ==> Raw(e, tab))
            && AnnotateList(And, es, false, nesting, tab, rank) == Some(es)
            && EvalSeq(And, es, env) == Eval(pre, env)
    decreases Bound(pre, rank), Splice(And, pre), 1
  {
    var es := Splice(And, pre);
    PlainSplice(And, pre, tab);
    BoundSplice(And, pre, rank);
    PlainListRaw(And, es, tab);
    AnnotateListCorrect(And, es, false, nesting, tab, rank, env);
    EvalSplice(And, pre, env);
  }

  lemma {:induction false} HoistCorrect(e: Expr, sym: Symbol, nesting: set<string>, tab: Table, rank: Rank, env: Env)
    requires TableOk(tab, rank) && Raw(e, tab) && e.AndOr? && Above(nesting, Bound(e, rank), rank)
    requires UniqueSym(e) == Some(sym) && sym.name in tab && tab[sym.name].prereqs.Some?
    ensures var r := Hoist(e, sym, nesting, tab, rank);
            r.Some? && (Eval(r.value, env) <==> Meaning(e, true, tab, rank, env))
    decreases Bound(e, rank), e, 2
  {
    UniqueBound(e, sym, rank, tab);
    assert InfoOk(sym.name, tab, rank);
    var prereqs := tab[sym.name].prereqs.value;
    AnnotateCorrect(prereqs, true, nesting, tab, rank, env);
    var pre := Annotate(prereqs, true, nesting, tab, rank).value;
    HoistMeaning(e, sym, tab, rank, env);
    HoistedPrereqs(pre, nesting, tab, rank, env);
    var a: seq<Expr>;
    if e.op == And {
      AnnotateListCorrect(And, e.subs, false, nesting, tab, rank, env);
      a := AnnotateList(And, e.subs, false, nesting, tab, rank).value;
    } else {
      AnnotateCorrect(e, false, nesting, tab, rank, env);
      a := Splice(And, Annotate(e, false, nesting, tab, rank).value);
      EvalSplice(And, Annotate(e, false, nesting, tab, rank).value, env);
    }
    EvalConcat(And, a, Splice(And, pre), env);
    EvalAndOr(And, a + Splice(And, pre), env);
  }

  lemma {:induction false} AnnotateListCorrect(op: Op, es: seq<Expr>, append: bool, nesting: set<string>, tab: Table,
                                               rank: Rank, env: Env)
    requires TableOk(tab, rank) && (forall e :: e in es ==> Raw(e, tab)) && Above(nesting, BoundSeq(es, rank), rank)
    ensures var r := AnnotateList(op, es, append, nesting, tab, rank);
            r.Some? && (EvalSeq(op, r.value, env) <==> MeaningSeq(op, es, append, tab, rank, env))
    decreases BoundSeq(es, rank), es, 0
  {
    if es != [] {
      assert es[0] in es && es == [es[0]] + es[1..];
      AnnotateCorrect(es[0], append, nesting, tab, rank, env);
      AnnotateListCorrect(op, es[1..], append, nesting, tab, rank, env);
      var first := Annotate(es[0], append, nesting, tab, rank).value;
      EvalSplice(op, first, env);
      EvalConcat(op, Splice(op, first), AnnotateList(op, es[1..], append, nesting, tab, rank).value, env);
    }
  }
}
