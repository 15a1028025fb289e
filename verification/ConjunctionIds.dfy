/** How controller/lflow.c keeps the conjunction ids of different logical flows
  * apart: each match's ids are moved up by an offset of its own. */
module ConjunctionIds {
  import opened Util
  import opened Expressions
  import opened Simplification
  import opened Normalization
  import opened Matches
  import opened LogicalFlows

  const U32: nat := 0x1_0000_0000

  /** Every conjunction id in the table is in (lo, hi]. */
  ghost predicate TableIds(t: Table, lo: nat, hi: nat) {
    forall m :: m in t ==>
      && (m.conjId.Some? ==> lo < m.conjId.value <= hi)
      && (forall c :: c in t[m] ==> lo < c.id <= hi)
  }

  lemma DescribesIds(t: Table, ems: seq<Emission>, lo: nat, hi: nat)
    requires Describes(t, ems) && IdsWithin(ems, lo, hi)
    ensures TableIds(t, lo, hi)
  {
    forall m | m in t
      ensures (m.conjId.Some? ==> lo < m.conjId.value <= hi) && (forall c :: c in t[m] ==> lo < c.id <= hi)
    {
      if t[m] == [] {
        assert Emit(m, None) in ems;
      } else {
        assert t[m][0] in t[m];
        assert Emit(m, Some(t[m][0])) in ems;
      }
      forall c | c in t[m] ensures lo < c.id <= hi {
        assert Emit(m, Some(c)) in ems;
      }
    }
  }

  /** The ids that a table uses are 1 up to the number reported with it. */
  lemma CompileIds(e: Expr, env: Env, tab: SymTab)
    requires Wf(e, tab) && ValidEnv(env)
    ensures var (t, n) := Compile(e, env.resident, env.lookup, tab); TableIds(t, 0, n)
  {
    SimplifyCorrect(e, env, tab);
    var simple := Simplify(e, env.resident);
    NormalizeCorrect(simple, env, tab);
    var normal := Normalize(simple, tab);
    FlowsCorrect(normal, env, tab);
    var (ems, n) := Flows(normal, env.lookup);
    BuildDescribes(ems);
    DescribesIds(Build(ems), ems, 0, n);
  }

  // ----- moving a table's ids up by an offset, in 32-bit arithmetic

  /** 32-bit addition of two 32-bit numbers. */
  function Shift(id: nat, ofs: nat): (r: nat) {
    if id + ofs < U32 then id + ofs else id + ofs - U32
  }

  /** 32-bit subtraction. */
  function UnshiftId(id: nat, ofs: nat): (r: nat)
    requires ofs < U32
  {
    if id >= ofs then id - ofs else id + U32 - ofs
  }

  function ShiftMatch(m: Match, ofs: nat): (r: Match) {
    if m.conjId.None? then m else m.(conjId := Some(Shift(m.conjId.value, ofs)))
  }

  function ShiftConjs(cs: seq<Conj>, ofs: nat): (r: seq<Conj>)
    ensures |r| == |cs|
  {
    if cs == [] then [] else [cs[0].(id := Shift(cs[0].id, ofs))] + ShiftConjs(cs[1..], ofs)
  }

  /** The match that 'm1' was before its id was moved up. */
  function Unshift(m1: Match, ofs: nat): (r: Match)
    requires ofs < U32
  {
    if m1.conjId.None? then m1 else m1.(conjId := Some(UnshiftId(m1.conjId.value, ofs)))
  }

  lemma ShiftBack(m: Match, ofs: nat)
    requires ofs < U32 && (m.conjId.Some? ==> m.conjId.value < U32)
    ensures ShiftMatch(m, ofs).fields == m.fields && Unshift(ShiftMatch(m, ofs), ofs) == m
    ensures m.conjId.Some? ==> ShiftMatch(m, ofs).conjId == Some(Shift(m.conjId.value, ofs))
  {
  }

  lemma {:induction false} ShiftConjsMember(cs: seq<Conj>, ofs: nat, c1: Conj)
    requires ofs < U32 && forall c :: c in cs ==> c.id < U32
    ensures c1 in ShiftConjs(cs, ofs) <==> c1.id < U32 && c1.(id := UnshiftId(c1.id, ofs)) in cs
  {
    if cs != [] {
      assert cs[0] in cs && cs == [cs[0]] + cs[1..];
      ShiftConjsMember(cs[1..], ofs, c1);
    }
  }

  /** 't1' holds the flows of 't' with every id moved up by 'ofs'. */
  ghost predicate Shifted(t: Table, t1: Table, ofs: nat)
    requires ofs < U32
  {
    && (forall m {:trigger ShiftMatch(m, ofs)} :: m in t ==> ShiftMatch(m, ofs) in t1)
    && (forall m1 :: m1 in t1 ==> Moved(t, t1, m1, ofs))
  }

  predicate Moved(t: Table, t1: Table, m1: Match, ofs: nat)
    requires m1 in t1 && ofs < U32
  {
    var m := Unshift(m1, ofs);
    m in t && ShiftMatch(m, ofs) == m1 && t1[m1] == ShiftConjs(t[m], ofs)
  }

  lemma ShiftedFinal(t: Table, t1: Table, ofs: nat, env: Env)
    requires ofs < U32 && Shifted(t, t1, ofs)
    ensures FinalHit(t, None, env) <==> FinalHit(t1, None, env)
  {
    if FinalHit(t, None, env) {
      var m :| m in t && m.conjId == None && t[m] == [] && Hits(m.fields, env);
      assert ShiftMatch(m, ofs) in t1 && Moved(t, t1, m, ofs);
    }
    if FinalHit(t1, None, env) {
      var m1 :| m1 in t1 && m1.conjId == None && t1[m1] == [] && Hits(m1.fields, env);
      assert Moved(t, t1, m1, ofs);
    }
  }

  lemma ShiftedConjId(t: Table, t1: Table, ofs: nat, id: nat, env: Env)
    requires ofs < U32 && Shifted(t, t1, ofs) && id < U32
    ensures FinalHit(t, Some(id), env) <==> FinalHit(t1, Some(Shift(id, ofs)), env)
  {
    if FinalHit(t, Some(id), env) {
      var m :| m in t && m.conjId == Some(id) && t[m] == [] && Hits(m.fields, env);
      ShiftBack(m, ofs);
      assert Moved(t, t1, ShiftMatch(m, ofs), ofs);
    }
    if FinalHit(t1, Some(Shift(id, ofs)), env) {
      var m1 :| m1 in t1 && m1.conjId == Some(Shift(id, ofs)) && t1[m1] == [] && Hits(m1.fields, env);
      assert Moved(t, t1, m1, ofs);
    }
  }

  lemma ShiftedClause(t: Table, t1: Table, ofs: nat, n: nat, id: nat, k: nat, c: nat, env: Env)
    requires ofs < U32 && Shifted(t, t1, ofs) && TableIds(t, 0, n) && n < U32 && id < U32
    ensures ClauseHit(t, id, k, c, env) <==> ClauseHit(t1, Shift(id, ofs), k, c, env)
  {
    var x1 := Conj(Shift(id, ofs), k, c);
    forall m | m in t1 && m.conjId.None? ensures m in t && (Conj(id, k, c) in t[m] <==> x1 in t1[m]) {
      assert Moved(t, t1, m, ofs);
      ShiftConjsMember(t[m], ofs, x1);
    }
    forall m | m in t && m.conjId.None? ensures m in t1 {
      assert ShiftMatch(m, ofs) in t1;
    }
  }

  /** Moving the ids changes nothing about which packets are accepted. */
  lemma ShiftedAccepts(t: Table, t1: Table, ofs: nat, n: nat, env: Env)
    requires ofs < U32 && Shifted(t, t1, ofs) && TableIds(t, 0, n) && n < U32
    ensures Accepts(t, env) <==> Accepts(t1, env)
  {
    ShiftedFinal(t, t1, ofs, env);
    if id: nat, c: nat :| AllClauses(t, id, c, env) && FinalHit(t, Some(id), env) {
      ShiftedConjunction(t, t1, ofs, n, id, c, env);
    }
    if id1: nat, c: nat :| AllClauses(t1, id1, c, env) && FinalHit(t1, Some(id1), env) {
      var m1 :| m1 in t1 && m1.conjId == Some(id1) && t1[m1] == [] && Hits(m1.fields, env);
      assert Moved(t, t1, m1, ofs);
      ShiftedConjunction(t, t1, ofs, n, UnshiftId(id1, ofs), c, env);
    }
  }

  lemma ShiftedConjunction(t: Table, t1: Table, ofs: nat, n: nat, id: nat, c: nat, env: Env)
    requires ofs < U32 && Shifted(t, t1, ofs) && TableIds(t, 0, n) && n < U32 && id < U32
    ensures AllClauses(t, id, c, env) <==> AllClauses(t1, Shift(id, ofs), c, env)
    ensures FinalHit(t, Some(id), env) <==> FinalHit(t1, Some(Shift(id, ofs)), env)
  {
    ShiftedConjId(t, t1, ofs, id, env);
    forall k: nat ensures ClauseHit(t, id, k, c, env) <==> ClauseHit(t1, Shift(id, ofs), k, c, env) {
      ShiftedClause(t, t1, ofs, n, id, k, c, env);
    }
  }

  // ----- add_logical_flows()

  /** Remaps every match and conjunction of 't', one flow at a time. */
  method ShiftTable(t: Table, ofs: nat, ghost n: nat) returns (t1: Table)
    requires TableIds(t, 0, n) && n < U32 && ofs < U32
    ensures Shifted(t, t1, ofs)
  {
    t1 := map[];
    var todo := t.Keys;
    while todo != {}
      invariant todo <= t.Keys
      invariant forall m :: m in t && m !in todo ==> ShiftMatch(m, ofs) in t1
      invariant forall m1 :: m1 in t1 ==> Moved(t, t1, m1, ofs)
      decreases |todo|
    {
      var m :| m in todo;
      ShiftBack(m, ofs);
      var m1 := ShiftMatch(m, ofs);
      ghost var before := t1;
      t1 := t1[m1 := ShiftConjs(t[m], ofs)];
      forall x | x in t1 ensures Moved(t, t1, x, ofs) {
        assert x != m1 ==> Moved(t, before, x, ofs);
      }
      todo := todo - {m};
    }
  }

  /** A match's table of flows and the number of ids it uses. */
  type Compiled = (Table, nat)

  /** The ids of a table are numbered from 1, in 32 bits. */
  ghost predicate Numbered(c: Compiled) {
    TableIds(c.0, 0, c.1) && c.1 < U32
  }

  /** How many ids are set aside for a match: none if it has no flows. */
  function IdsFor(c: Compiled): (r: nat) {
    if c.0 == map[] then 0 else c.1
  }

  /** How many conjunction ids are set aside for the first 'n' tables together. */
  function TotalIds(cs: seq<Compiled>, n: nat): (r: nat)
    requires n <= |cs|
  {
    if n == 0 then 0 else TotalIds(cs, n - 1) + IdsFor(cs[n - 1])
  }

  /** What the ids of the i-th table are moved up by, in 32 bits. */
  function Offset(cs: seq<Compiled>, i: nat): (r: nat)
    requires i <= |cs|
    ensures r < U32
  {
    (1 + TotalIds(cs, i)) % U32
  }

  lemma AddsModulo(x: nat, n: nat)
    requires n < U32
    ensures (x + n) % U32 == Shift(n, x % U32)
  {
    var q, r := x / U32, x % U32;
    assert x + n == U32 * q + (r + n);
    if r + n < U32 {
      assert (x + n) / U32 == q;
    } else {
      assert x + n == U32 * (q + 1) + (r + n - U32);
      assert (x + n) / U32 == q + 1;
    }
  }

  lemma {:induction false} TotalIdsMonotone(cs: seq<Compiled>, i: nat, j: nat)
    requires i <= j <= |cs|
    ensures TotalIds(cs, i) <= TotalIds(cs, j)
    decreases j
  {
    if i < j {
      TotalIdsMonotone(cs, i, j - 1);
    }
  }

  /** The i-th table has its ids moved past those of the tables before it. */
  ghost predicate ShiftedAt(cs: seq<Compiled>, tables: seq<Table>, i: nat)
    requires i < |cs| && i < |tables|
  {
    Shifted(cs[i].0, tables[i], Offset(cs, i))
  }

  ghost predicate ShiftedUpTo(cs: seq<Compiled>, tables: seq<Table>) {
    |tables| <= |cs| && forall i :: 0 <= i < |tables| ==> ShiftedAt(cs, tables, i)
  }

  /** Every table is numbered and has been moved. */
  ghost predicate AllMoved(cs: seq<Compiled>, tables: seq<Table>) {
    |tables| == |cs| && ShiftedUpTo(cs, tables) && forall c :: c in cs ==> Numbered(c)
  }

  lemma ShiftedExtend(cs: seq<Compiled>, tables: seq<Table>, t1: Table)
    requires ShiftedUpTo(cs, tables) && |tables| < |cs| && Shifted(cs[|tables|].0, t1, Offset(cs, |tables|))
    ensures ShiftedUpTo(cs, tables + [t1])
  {
    forall i | 0 <= i < |tables + [t1]| ensures ShiftedAt(cs, tables + [t1], i) {
      if i < |tables| {
        assert ShiftedAt(cs, tables, i);
      }
    }
  }

  /** Every logical flow's table in turn, with its ids moved past those of the
    * logical flows before it. */
  method AddLogicalFlows(cs: seq<Compiled>) returns (tables: seq<Table>)
    requires forall c :: c in cs ==> Numbered(c)
    ensures AllMoved(cs, tables)
  {
    tables := [];
    var ofs := 1;
    for i := 0 to |cs|
      invariant |tables| == i && ofs == Offset(cs, i)
      invariant ShiftedUpTo(cs, tables)
    {
      assert Numbered(cs[i]);
      var t1 := ShiftTable(cs[i].0, ofs, cs[i].1);
      ShiftedExtend(cs, tables, t1);
      tables := tables + [t1];
      AddsModulo(1 + TotalIds(cs, i), IdsFor(cs[i]));
      if cs[i].0 != map[] {
        ofs := Shift(cs[i].1, ofs);
      }
    }
  }

  /** A logical flow's table accepts exactly the packets that its match is true
    * of, wherever its ids start. */
  lemma TranslationCorrect(e: Expr, t1: Table, ofs: nat, env: Env, tab: SymTab)
    requires ValidEnv(env) && Wf(e, tab) && ofs < U32
    requires var (t, n) := Compile(e, env.resident, env.lookup, tab); Shifted(t, t1, ofs) && n < U32
    ensures Accepts(t1, env) <==> Eval(e, env)
  {
    var (t, n) := Compile(e, env.resident, env.lookup, tab);
    CompileIds(e, env, tab);
    CompileCorrect(e, env, tab);
    ShiftedAccepts(t, t1, ofs, n, env);
  }

  // ----- ids of different logical flows

  /** 'id' occurs in the table. */
  ghost predicate UsesId(t: Table, id: nat) {
    exists m :: m in t && UsesIdAt(t, m, id)
  }

  predicate UsesIdAt(t: Table, m: Match, id: nat)
    requires m in t
  {
    m.conjId == Some(id) || exists c :: c in t[m] && c.id == id
  }

  /** An id that a moved table uses is a moved id of the table. */
  lemma UsedBefore(t: Table, t1: Table, ofs: nat, n: nat, id1: nat)
    requires ofs < U32 && Shifted(t, t1, ofs) && TableIds(t, 0, n) && n < U32 && UsesId(t1, id1)
    ensures id1 < U32 && UsesId(t, UnshiftId(id1, ofs))
  {
    var m1 :| m1 in t1 && UsesIdAt(t1, m1, id1);
    assert Moved(t, t1, m1, ofs);
    var m := Unshift(m1, ofs);
    if m1.conjId == Some(id1) {
      assert UsesIdAt(t, m, UnshiftId(id1, ofs));
    } else {
      var c1 :| c1 in t1[m1] && c1.id == id1;
      ShiftConjsMember(t[m], ofs, c1);
      assert c1.(id := UnshiftId(id1, ofs)) in t[m] && UsesIdAt(t, m, UnshiftId(id1, ofs));
    }
  }

  /** And the other way around. */
  lemma UsedAfter(t: Table, t1: Table, ofs: nat, n: nat, id: nat)
    requires ofs < U32 && Shifted(t, t1, ofs) && TableIds(t, 0, n) && n < U32 && UsesId(t, id)
    ensures UsesId(t1, Shift(id, ofs))
  {
    var m :| m in t && UsesIdAt(t, m, id);
    var m1 := ShiftMatch(m, ofs);
    ShiftBack(m, ofs);
    assert m1 in t1 && Moved(t, t1, m1, ofs);
    if m.conjId == Some(id) {
      assert UsesIdAt(t1, m1, Shift(id, ofs));
    } else {
      var c :| c in t[m] && c.id == id;
      ShiftConjsMember(t[m], ofs, c.(id := Shift(id, ofs)));
      assert c.(id := Shift(id, ofs)) in t1[m1] && UsesIdAt(t1, m1, Shift(id, ofs));
    }
  }

  lemma UsedInRange(c: Compiled, id: nat)
    requires Numbered(c) && UsesId(c.0, id)
    ensures 0 < id <= IdsFor(c)
  {
  }

  /** The p-th id set aside is the i-th match's. */
  predicate Owns(cs: seq<Compiled>, i: nat, p: nat)
    requires i < |cs|
  {
    TotalIds(cs, i) < p <= TotalIds(cs, i + 1)
  }

  /** And the match uses it. */
  ghost predicate UsesOwn(cs: seq<Compiled>, i: nat, p: nat) {
    i < |cs| && Owns(cs, i, p) && UsesId(cs[i].0, p - TotalIds(cs, i))
  }

  /** An id that the i-th match's flows use is one of those set aside for it. */
  lemma UsedIsOwned(cs: seq<Compiled>, tables: seq<Table>, i: nat, id: nat) returns (p: nat)
    requires AllMoved(cs, tables) && i < |cs| && UsesId(tables[i], id)
    ensures UsesOwn(cs, i, p) && id == (1 + p) % U32
  {
    assert ShiftedAt(cs, tables, i) && Numbered(cs[i]);
    UsedBefore(cs[i].0, tables[i], Offset(cs, i), cs[i].1, id);
    var before := UnshiftId(id, Offset(cs, i));
    UsedInRange(cs[i], before);
    AddsModulo(1 + TotalIds(cs, i), before);
    p := TotalIds(cs, i) + before;
  }

  lemma OwnedIsUsed(cs: seq<Compiled>, tables: seq<Table>, i: nat, p: nat)
    requires AllMoved(cs, tables) && UsesOwn(cs, i, p)
    ensures UsesId(tables[i], (1 + p) % U32)
  {
    assert ShiftedAt(cs, tables, i) && Numbered(cs[i]);
    var before := p - TotalIds(cs, i);
    assert before < U32;
    AddsModulo(1 + TotalIds(cs, i), before);
    UsedAfter(cs[i].0, tables[i], Offset(cs, i), cs[i].1, before);
  }

  lemma SameModulo(p: nat, q: nat)
    requires p < q && p % U32 == q % U32
    ensures q - p >= U32
  {
    var a, b := p / U32, q / U32;
    assert p == U32 * a + p % U32 && q == U32 * b + q % U32;
    assert a < b;
  }

  ghost predicate SharedId(tables: seq<Table>, i: nat, j: nat, id: nat) {
    i < j < |tables| && UsesId(tables[i], id) && UsesId(tables[j], id)
  }

  lemma OwnedApart(cs: seq<Compiled>, i: nat, j: nat, p: nat, q: nat)
    requires i < j < |cs| && Owns(cs, i, p) && Owns(cs, j, q) && TotalIds(cs, |cs|) <= U32
    ensures (1 + p) % U32 != (1 + q) % U32
  {
    TotalIdsMonotone(cs, i + 1, j);
    TotalIdsMonotone(cs, j + 1, |cs|);
    if (1 + p) % U32 == (1 + q) % U32 {
      SameModulo(1 + p, 1 + q);
    }
  }

  /** Different logical flows share no conjunction id, as long as no more than 2^32
    * ids are set aside altogether. */
  lemma NoSharedId(cs: seq<Compiled>, tables: seq<Table>, i: nat, j: nat, id: nat)
    requires AllMoved(cs, tables) && TotalIds(cs, |cs|) <= U32
    ensures !SharedId(tables, i, j, id)
  {
    if SharedId(tables, i, j, id) {
      var p := UsedIsOwned(cs, tables, i, id);
      var q := UsedIsOwned(cs, tables, j, id);
      OwnedApart(cs, i, j, p, q);
    }
  }

  /** Two matches use ids that are set aside a multiple of 2^32 apart. */
  ghost predicate Congruent(cs: seq<Compiled>, i: nat, j: nat, p: nat, q: nat) {
    i < j && UsesOwn(cs, i, p) && UsesOwn(cs, j, q) && (1 + p) % U32 == (1 + q) % U32
  }

  /** Two logical flows share a conjunction id if and only if their matches use ids
    * that are set aside a multiple of 2^32 apart. */
  lemma SharedIffCongruent(cs: seq<Compiled>, tables: seq<Table>, i: nat, j: nat)
    requires AllMoved(cs, tables)
    ensures (exists id: nat :: SharedId(tables, i, j, id)) <==> exists p: nat, q: nat :: Congruent(cs, i, j, p, q)
  {
    if id: nat :| SharedId(tables, i, j, id) {
      var p := UsedIsOwned(cs, tables, i, id);
      var q := UsedIsOwned(cs, tables, j, id);
      assert Congruent(cs, i, j, p, q);
    }
    if p: nat, q: nat :| Congruent(cs, i, j, p, q) {
      OwnedIsUsed(cs, tables, i, p);
      OwnedIsUsed(cs, tables, j, q);
      assert SharedId(tables, i, j, (1 + p) % U32);
    }
  }

  /** All the ids set aside for the match are used. */
  ghost predicate UsesAll(c: Compiled) {
    forall id :: 0 < id <= IdsFor(c) ==> UsesId(c.0, id)
  }

  lemma {:induction false} Owner(cs: seq<Compiled>, n: nat, p: nat) returns (i: nat)
    requires n <= |cs| && 0 < p <= TotalIds(cs, n)
    ensures i < n && Owns(cs, i, p)
  {
    if p <= TotalIds(cs, n - 1) {
      i := Owner(cs, n - 1, p);
    } else {
      i := n - 1;
    }
  }

  /** The first id set aside, and the same one 2^32 ids later. */
  lemma FirstIdAgain(cs: seq<Compiled>, tables: seq<Table>, i: nat, j: nat)
    requires AllMoved(cs, tables) && (forall c :: c in cs ==> UsesAll(c))
    requires i < |cs| && j < |cs| && Owns(cs, i, 1) && Owns(cs, j, 1 + U32)
    ensures SharedId(tables, i, j, 2)
  {
    assert cs[i] in cs && cs[j] in cs && IdsFor(cs[i]) < U32;
    assert UsesOwn(cs, i, 1) && UsesOwn(cs, j, 1 + U32);
    OwnedIsUsed(cs, tables, i, 1);
    OwnedIsUsed(cs, tables, j, 1 + U32);
    if j < i {
      TotalIdsMonotone(cs, j + 1, i);
    }
  }

  /** Where the matches use all their ids, two of them share one if and only if
    * more than 2^32 are set aside altogether. */
  lemma SharedIdIff(cs: seq<Compiled>, tables: seq<Table>)
    requires AllMoved(cs, tables) && forall c :: c in cs ==> UsesAll(c)
    ensures TotalIds(cs, |cs|) > U32 <==> exists i: nat, j: nat, id: nat :: SharedId(tables, i, j, id)
  {
    if TotalIds(cs, |cs|) > U32 {
      var i := Owner(cs, |cs|, 1);
      var j := Owner(cs, |cs|, 1 + U32);
      FirstIdAgain(cs, tables, i, j);
    } else {
      forall i: nat, j: nat, id: nat ensures !SharedId(tables, i, j, id) {
        NoSharedId(cs, tables, i, j, id);
      }
    }
  }

  lemma {:induction false} TotalOfSame(cs: seq<Compiled>, c: Compiled, n: nat)
    requires n <= |cs| && (forall i :: 0 <= i < |cs| ==> cs[i] == c) && IdsFor(c) == 1
    ensures TotalIds(cs, n) == n
  {
    if n > 0 {
      TotalOfSame(cs, c, n - 1);
    }
  }

  /** Of 2^32 + 1 logical flows with one conjunction each, two share an id. */
  lemma TooMany(cs: seq<Compiled>, tables: seq<Table>, c: Compiled)
    requires UsesAll(c) && IdsFor(c) == 1
    requires |cs| == U32 + 1 && (forall i :: 0 <= i < |cs| ==> cs[i] == c) && AllMoved(cs, tables)
    ensures exists i: nat, j: nat, id: nat :: SharedId(tables, i, j, id)
  {
    TotalOfSame(cs, c, |cs|);
    SharedIdIff(cs, tables);
  }
}
