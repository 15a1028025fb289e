/** Matching expressions and their meaning on one packet (lib/expr.c). */
module Expressions {
  import opened Util
  import opened Bits

  datatype Level = Nominal | Boolean | Ordinal

  /** A symbol.  'width' is 0 for a string symbol, whose packet field is a
    * 32-bit port number. */
  datatype Symbol = Symbol(name: string, width: nat, level: Level, mustCrossproduct: bool)

  /** The symbols by name; a name belongs to one symbol only. */
  type SymTab = map<string, Symbol>

  const PORT_BITS: nat := 32

  datatype Relop = EQ | NE | LT | LE | GT | GE

  datatype Constant = Num(value: Bits, mask: Bits) | Str(name: string)

  datatype Op = And | Or

  datatype Expr =
    | Cmp(sym: Symbol, relop: Relop, cst: Constant)
    | AndOr(op: Op, subs: seq<Expr>)
    | Bool(b: bool)
    | Cond(not: bool, port: string)

  /** What an expression is evaluated against: the packet's fields, the port
    * numbers known by name, and which ports are resident on this chassis. */
  datatype Env = Env(pkt: Symbol -> Bits, lookup: string -> Option<Bits>, resident: string -> bool)

  /** Port numbers fit their field, and two names never share one. */
  ghost predicate ValidEnv(env: Env)
  {
    && (forall n :: env.lookup(n).Some? ==> env.lookup(n).value <= Range(0, PORT_BITS))
    && (forall n, m :: env.lookup(n).Some? && env.lookup(n) == env.lookup(m) ==> n == m)
  }

  function RelopTest(relop: Relop, cmp: int): (r: bool)
  {
    match relop
    case EQ => cmp == 0
    case NE => cmp != 0
    case LT => cmp < 0
    case LE => cmp <= 0
    case GT => cmp > 0
    case GE => cmp >= 0
  }

  function RelopInvert(relop: Relop): (r: Relop)
    ensures forall cmp :: RelopTest(r, cmp) == !RelopTest(relop, cmp)
  {
    match relop
    case EQ => NE
    case NE => EQ
    case LT => GE
    case LE => GT
    case GT => LE
    case GE => LT
  }

  function RelopTurn(relop: Relop): (r: Relop)
    ensures forall cmp: int :: RelopTest(r, -cmp) == RelopTest(relop, cmp)
  {
    match relop
    case EQ => EQ
    case NE => NE
    case LT => GT
    case LE => GE
    case GT => LT
    case GE => LE
  }

  function Dual(op: Op): (r: Op) {
    if op == And then Or else And
  }

  // ----- evaluation

  predicate EvalCmp(sym: Symbol, relop: Relop, cst: Constant, env: Env)
  {
    match cst
    case Num(value, mask) =>
      RelopTest(relop, Compare(env.pkt(sym) * mask, value, sym.width))
    case Str(name) =>
      match env.lookup(name)
      case None => false
      case Some(port) => RelopTest(relop, Compare(env.pkt(sym), port, PORT_BITS))
  }

  predicate Eval(e: Expr, env: Env)
  {
    match e
    case Cmp(sym, relop, cst) => EvalCmp(sym, relop, cst, env)
    case AndOr(And, subs) => forall s :: s in subs ==> Eval(s, env)
    case AndOr(Or, subs) => exists s :: s in subs && Eval(s, env)
    case Bool(b) => b
    case Cond(not, port) => env.resident(port) != not
  }

  predicate EvalSeq(op: Op, subs: seq<Expr>, env: Env)
  {
    match op
    case And => forall s :: s in subs ==> Eval(s, env)
    case Or => exists s :: s in subs && Eval(s, env)
  }

  lemma EvalAndOr(op: Op, subs: seq<Expr>, env: Env)
    ensures Eval(AndOr(op, subs), env) == EvalSeq(op, subs, env)
  {
  }

  /** 'p op q' on truth values. */
  predicate Join(op: Op, p: bool, q: bool) {
    if op == And then p && q else p || q
  }

  lemma EvalConcat(op: Op, a: seq<Expr>, b: seq<Expr>, env: Env)
    ensures EvalSeq(op, a + b, env) == Join(op, EvalSeq(op, a, env), EvalSeq(op, b, env))
  {
    forall s ensures s in a + b <==> s in a || s in b { }
    if op == And {
      assert forall s :: s in a ==> s in a + b;
      assert forall s :: s in b ==> s in a + b;
    } else {
      assert forall s :: s in a ==> s in a + b;
      assert forall s :: s in b ==> s in a + b;
    }
  }

  lemma EvalSingle(op: Op, e: Expr, env: Env)
    ensures EvalSeq(op, [e], env) == Eval(e, env)
  {
    assert e in [e];
  }

  lemma EvalCons(op: Op, e: Expr, es: seq<Expr>, env: Env)
    ensures EvalSeq(op, [e] + es, env) == Join(op, Eval(e, env), EvalSeq(op, es, env))
  {
    EvalSingle(op, e, env);
    EvalConcat(op, [e], es, env);
  }

  /** Only which operands occur matters, not their order or number. */
  lemma EvalSameMembers(op: Op, a: seq<Expr>, b: seq<Expr>, env: Env)
    requires forall s :: s in a <==> s in b
    ensures EvalSeq(op, a, env) == EvalSeq(op, b, env)
  {
  }

  // ----- building expressions

  /** The operands that 'e' contributes to an 'op' node: a node of the same
    * type is merged into its parent (expr_insert_andor). */
  function Splice(op: Op, e: Expr): (r: seq<Expr>)
  {
    if e.AndOr? && e.op == op then e.subs else [e]
  }

  lemma EvalSplice(op: Op, e: Expr, env: Env)
    ensures EvalSeq(op, Splice(op, e), env) == Eval(e, env)
  {
    EvalSingle(op, e, env);
  }

  function Combine(op: Op, a: Expr, b: Expr): (r: Expr)
  {
    AndOr(op, Splice(op, a) + Splice(op, b))
  }

  lemma EvalCombine(op: Op, a: Expr, b: Expr, env: Env)
    ensures Eval(Combine(op, a, b), env) == Join(op, Eval(a, env), Eval(b, env))
  {
    EvalSplice(op, a, env);
    EvalSplice(op, b, env);
    EvalConcat(op, Splice(op, a), Splice(op, b), env);
    EvalAndOr(op, Splice(op, a) + Splice(op, b), env);
  }

  function Not(e: Expr): (r: Expr)
    decreases e, 1
  {
    match e
    case Cmp(sym, relop, cst) => Cmp(sym, RelopInvert(relop), cst)
    case AndOr(op, subs) => AndOr(Dual(op), NotAll(subs))
    case Bool(b) => Bool(!b)
    case Cond(not, port) => Cond(!not, port)
  }

  function NotAll(subs: seq<Expr>): (r: seq<Expr>)
    ensures |r| == |subs|
    decreases subs, 0
  {
    if subs == [] then [] else [Not(subs[0])] + NotAll(subs[1..])
  }

  /** Every string comparison in 'e' names a port that is known. */
  ghost predicate StringsKnown(e: Expr, env: Env)
  {
    match e
    case Cmp(_, _, cst) => cst.Str? ==> env.lookup(cst.name).Some?
    case AndOr(_, subs) => forall s :: s in subs ==> StringsKnown(s, env)
    case Bool(_) => true
    case Cond(_, _) => true
  }

  lemma {:induction false} NotAllAt(subs: seq<Expr>, i: nat)
    requires i < |subs|
    ensures NotAll(subs)[i] == Not(subs[i])
  {
    if i > 0 {
      NotAllAt(subs[1..], i - 1);
    }
  }

  /** expr_not() negates, as long as no comparison can fail to resolve. */
  lemma {:induction false} EvalNot(e: Expr, env: Env)
    requires StringsKnown(e, env)
    ensures Eval(Not(e), env) == !Eval(e, env)
  {
    if e.AndOr? {
      var ns := NotAll(e.subs);
      forall i | 0 <= i < |ns| ensures Eval(ns[i], env) == !Eval(e.subs[i], env) {
        NotAllAt(e.subs, i);
        assert e.subs[i] in e.subs;
        EvalNot(e.subs[i], env);
      }
    }
  }

  lemma {:induction false} NotInvolutive(e: Expr)
    ensures Not(Not(e)) == e
  {
    if e.AndOr? {
      var ns := NotAll(e.subs);
      var nns := NotAll(ns);
      forall i | 0 <= i < |nns| ensures nns[i] == e.subs[i] {
        NotAllAt(e.subs, i);
        NotAllAt(ns, i);
        NotInvolutive(e.subs[i]);
      }
      assert nns == e.subs;
    }
  }
}
