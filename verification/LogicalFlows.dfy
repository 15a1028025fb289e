/** The whole translation of a logical flow's match, in the order of
  * controller/lflow.c. */
module LogicalFlows {
  import opened Util
  import opened Bits
  import opened Expressions
  import opened Simplification
  import opened Normalization
  import opened Matches
  import Annotation

  /** Simplify, normalise and emit, in the order of consider_logical_flow(). */
  function Compile(e: Expr, resident: string -> bool, lookup: string -> Option<Bits>,
                   ghost tab: SymTab): (r: (Table, nat))
    requires Wf(e, tab)
  {
    var simple := Simplify(e, resident);
    SimplifyCorrect(e, Env(_ => {}, lookup, resident), tab);
    var normal := Normalize(simple, tab);
    NormalizeForm(simple, tab);
    NormalizedEmittable(normal, tab);
    ToMatches(normal, lookup)
  }

  lemma NormalizeForm(e: Expr, tab: SymTab)
    requires Simplified(e, tab)
    ensures Normalized(Normalize(e, tab), tab)
  {
    NormalizeCorrect(e, Env(_ => {}, _ => None, _ => false), tab);
  }

  /** End to end: the flows accept a packet exactly when the expression is true
    * of it, whatever the residency answers and the known ports. */
  lemma CompileCorrect(e: Expr, env: Env, tab: SymTab)
    requires Wf(e, tab) && ValidEnv(env)
    ensures Accepts(Compile(e, env.resident, env.lookup, tab).0, env) <==> Eval(e, env)
  {
    SimplifyCorrect(e, env, tab);
    var simple := Simplify(e, env.resident);
    NormalizeCorrect(simple, env, tab);
    ToMatchesCorrect(Normalize(simple, tab), env, tab);
  }

  /** From the parsed match to the flows: annotation succeeds, and the flows
    * accept a packet exactly when the match is true of it in the naive sense,
    * with every symbol's prerequisites checked where the symbol is used. */
  lemma MatchCorrect(e: Expr, tab: Annotation.Table, rank: Annotation.Rank, env: Env)
    requires Annotation.TableOk(tab, rank) && Annotation.Raw(e, tab) && ValidEnv(env)
    ensures var a := Annotation.Annotate(e, true, {}, tab, rank);
            && a.Some?
            && Wf(a.value, Annotation.Fields(tab))
            && (Accepts(Compile(a.value, env.resident, env.lookup, Annotation.Fields(tab)).0, env)
                <==> Annotation.Meaning(e, true, tab, rank, env))
  {
    Annotation.AnnotateCorrect(e, true, {}, tab, rank, env);
    var a := Annotation.Annotate(e, true, {}, tab, rank).value;
    Annotation.PlainIsWf(a, tab);
    CompileCorrect(a, env, Annotation.Fields(tab));
  }
}
