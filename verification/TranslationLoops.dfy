/** The translation of one match, with every step in the form of lib/expr.c and
  * in the order of controller/lflow.c. */
module TranslationLoops {
  import opened Util
  import opened Bits
  import opened Expressions
  import opened Simplification
  import opened Matches
  import LogicalFlows
  import SimplifyLoops
  import NormalizeLoops
  import MatchLoops

  /** Simplify, normalise and emit: the table of flows and the number of ids. */
  method Translate(e: Expr, resident: string -> bool, lookup: string -> Option<Bits>, ghost tab: SymTab)
    returns (table: Table, n: nat)
    requires Wf(e, tab)
    ensures (table, n) == LogicalFlows.Compile(e, resident, lookup, tab)
    ensures forall env: Env :: ValidEnv(env) && env.resident == resident && env.lookup == lookup ==>
              (Accepts(table, env) <==> Eval(e, env))
  {
    var simple := SimplifyLoops.SimplifyTree(e, resident);
    SimplifyCorrect(e, Env(_ => {}, lookup, resident), tab);
    var normal := NormalizeLoops.NormalizeExpr(simple, tab);
    LogicalFlows.NormalizeForm(simple, tab);
    NormalizedEmittable(normal, tab);
    var matches := new MatchLoops.MatchTable();
    matches.ConvertToMatches(normal, lookup);
    table, n := matches.table, matches.nConjs;
    forall env: Env | ValidEnv(env) && env.resident == resident && env.lookup == lookup
      ensures Accepts(table, env) <==> Eval(e, env) {
      LogicalFlows.CompileCorrect(e, env, tab);
    }
  }
}
