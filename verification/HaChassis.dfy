/** Which chassis of an HA chassis group is active (controller/ha-chassis.c). */
module HaChassis {
  import opened Util
  import opened Sorting

  /** A member of a group; its chassis may be gone. */
  datatype Member = Member(chassis: Option<string>, priority: int)

  datatype Group = Group(members: seq<Member>, refs: seq<string>)

  datatype Candidate = Candidate(name: string, priority: int)

  const MAX_PRIORITY := 32767

  /** A chassis is a member at most once, and priorities are what the database
    * schema admits. */
  ghost predicate Ok(g: Group) {
    && (forall m :: m in g.members ==> 0 <= m.priority <= MAX_PRIORITY)
    && (forall i, j :: 0 <= i < j < |g.members| && g.members[i].chassis.Some? ==>
        g.members[i].chassis != g.members[j].chassis)
  }

  /** Conversion to a 32-bit int. */
  function ToInt32(x: int): (r: int) {
    (x + 0x8000_0000) % 0x1_0000_0000 - 0x8000_0000
  }

  function Compare(a: Candidate, b: Candidate): (r: int) {
    var diff := ToInt32(b.priority - a.priority);
    if diff == 0 then StrCmp(b.name, a.name) else diff
  }

  // ----- the ordered list

  predicate Considered(m: Member, active: Option<set<string>>, local: string) {
    m.chassis.Some? && (m.chassis.value == local || active.None? || m.chassis.value in active.value)
  }

  function Candidates(members: seq<Member>, active: Option<set<string>>, local: string): (r: seq<Candidate>)
    ensures forall c :: c in r <==>
              exists m :: m in members && Considered(m, active, local) && c == Candidate(m.chassis.value, m.priority)
  {
    if members == [] then []
    else
      var init, last := members[..|members| - 1], members[|members| - 1];
      assert members == init + [last];
      Candidates(init, active, local) +
      if Considered(last, active, local) then [Candidate(last.chassis.value, last.priority)] else []
  }

  predicate Refers(refs: seq<string>, tunnels: set<string>) {
    exists r :: r in refs && r in tunnels
  }

  /** Members in order of preference; none if the only one is isolated. */
  function Ordered(g: Group, active: Option<set<string>>, local: string): (r: Option<seq<Candidate>>)
    ensures r.Some? ==> r.value != []
  {
    var cs := Candidates(g.members, active, local);
    if cs == [] then None
    else if |cs| == 1 then
      if active.Some? && !Refers(g.refs, active.value) then None else Some(cs)
    else Some(Sort(cs, Compare))
  }

  /** get_ordered_ha_chassis_list() */
  method GetOrdered(g: Group, active: Option<set<string>>, local: string) returns (r: Option<seq<Candidate>>)
    ensures r == Ordered(g, active, local)
  {
    var order: seq<Candidate> := [];
    for i := 0 to |g.members|
      invariant order == Candidates(g.members[..i], active, local)
    {
      var m := g.members[i];
      assert g.members[..i + 1][..i] == g.members[..i];
      if m.chassis.None? {
        continue;
      }
      if m.chassis.value != local && active.Some? && m.chassis.value !in active.value {
        continue;
      }
      order := order + [Candidate(m.chassis.value, m.priority)];
    }
    assert g.members[..|g.members|] == g.members;
    if order == [] {
      return None;
    }
    if |order| == 1 {
      if active.Some? {
        var canBeActive := false;
        for i := 0 to |g.refs|
          invariant !canBeActive
          invariant forall k :: 0 <= k < i ==> g.refs[k] !in active.value
        {
          if g.refs[i] in active.value {
            canBeActive := true;
            break;
          }
        }
        if !canBeActive {
          return None;
        }
      }
    } else {
      order := Sort(order, Compare);
    }
    return Some(order);
  }

  /** ha_chassis_group_is_active() */
  predicate IsActive(g: Option<Group>, tunnels: set<string>, local: string) {
    if g.None? || g.value.members == [] then false
    else if |g.value.members| == 1 then g.value.members[0].chassis == Some(local)
    else if tunnels == {} then false
    else
      var order := Ordered(g.value, Some(tunnels), local);
      order.Some? && order.value[0].name == local
  }

  // ----- preference

  /** Higher priority first, then the greater name. */
  predicate Precedes(a: Candidate, b: Candidate) {
    a.priority > b.priority || (a.priority == b.priority && StrCmp(a.name, b.name) > 0)
  }

  predicate InRange(c: Candidate) {
    0 <= c.priority <= MAX_PRIORITY
  }

  lemma CompareMeaning(a: Candidate, b: Candidate)
    requires InRange(a) && InRange(b)
    ensures Compare(a, b) < 0 <==> Precedes(a, b)
    ensures Compare(a, b) == 0 <==> a == b
  {
    StrCmpZero(a.name, b.name);
    StrCmpZero(b.name, a.name);
    StrCmpAntisymmetric(a.name, b.name);
  }

  lemma PrecedesOrder(a: Candidate, b: Candidate, c: Candidate)
    ensures !(Precedes(a, b) && Precedes(b, a))
    ensures Precedes(a, b) && Precedes(b, c) ==> Precedes(a, c)
    ensures a == b || Precedes(a, b) || Precedes(b, a)
  {
    StrCmpAntisymmetric(a.name, b.name);
    StrCmpZero(a.name, b.name);
    StrCmpAntisymmetric(b.name, c.name);
    StrCmpAntisymmetric(a.name, c.name);
    StrCmpZero(a.name, c.name);
    if Precedes(a, b) && Precedes(b, c) && a.priority == b.priority == c.priority {
      StrCmpTransitive(c.name, b.name, a.name);
    }
  }

  lemma CompareTotal(cs: seq<Candidate>)
    requires forall c :: c in cs ==> InRange(c)
    ensures TotalOn(Members(cs), Compare)
  {
    forall a, b | a in cs && b in cs ensures Compare(a, b) <= 0 || Compare(b, a) <= 0 {
      CompareMeaning(a, b);
      CompareMeaning(b, a);
      PrecedesOrder(a, b, a);
    }
    forall a, b, c | a in cs && b in cs && c in cs && Compare(a, b) <= 0 && Compare(b, c) <= 0
      ensures Compare(a, c) <= 0 {
      CompareMeaning(a, b);
      CompareMeaning(b, c);
      CompareMeaning(a, c);
      PrecedesOrder(a, b, c);
    }
  }

  /** The first one precedes all others. */
  lemma FirstPrecedes(cs: seq<Candidate>, c: Candidate)
    requires cs != [] && (forall c :: c in cs ==> InRange(c)) && c in cs
    ensures var first := Sort(cs, Compare)[0]; first in cs && (c == first || Precedes(first, c))
  {
    var sorted := Sort(cs, Compare);
    assert sorted[0] in sorted;
    CompareTotal(cs);
    SortSorted(cs, Compare, Members(cs));
    assert c in sorted;
    CompareMeaning(sorted[0], c);
    if c != sorted[0] {
      assert c in sorted[1..];
    }
  }

  // ----- who is active

  /** 'm' is another member that the local chassis sees. */
  predicate Seen(m: Member, tunnels: set<string>, local: string) {
    m.chassis.Some? && m.chassis.value != local && m.chassis.value in tunnels
  }

  ghost predicate SeesAnother(g: Group, tunnels: set<string>, local: string) {
    exists m :: m in g.members && Seen(m, tunnels, local)
  }

  ghost predicate IsMember(g: Group, name: string, priority: int) {
    Member(Some(name), priority) in g.members
  }

  /** A member precedes every other one that its chassis sees. */
  ghost predicate Foremost(g: Group, tunnels: set<string>, local: string, priority: int) {
    forall m :: m in g.members && Seen(m, tunnels, local) ==>
      Precedes(Candidate(local, priority), Candidate(m.chassis.value, m.priority))
  }

  lemma OnePriority(g: Group, name: string, p: int, q: int)
    requires Ok(g) && IsMember(g, name, p) && IsMember(g, name, q)
    ensures p == q
  {
    var i :| 0 <= i < |g.members| && g.members[i] == Member(Some(name), p);
    var j :| 0 <= j < |g.members| && g.members[j] == Member(Some(name), q);
    assert i == j;
  }

  lemma CandidateMember(g: Group, tunnels: set<string>, local: string, c: Candidate)
    requires Ok(g)
    ensures c in Candidates(g.members, Some(tunnels), local) <==>
            IsMember(g, c.name, c.priority) && (c.name == local || c.name in tunnels)
    ensures IsMember(g, c.name, c.priority) ==> InRange(c)
  {
    if IsMember(g, c.name, c.priority) {
      var m := Member(Some(c.name), c.priority);
      assert m in g.members;
    }
  }

  lemma {:induction false} CandidatesDistinct(members: seq<Member>, active: Option<set<string>>, local: string)
    requires forall i, j :: 0 <= i < j < |members| && members[i].chassis.Some? ==>
               members[i].chassis != members[j].chassis
    ensures Distinct(Candidates(members, active, local))
  {
    if members != [] {
      var init, last := members[..|members| - 1], members[|members| - 1];
      CandidatesDistinct(init, active, local);
      forall c | c in Candidates(init, active, local) && last.chassis.Some? ensures c.name != last.chassis.value {
        var m :| m in init && Considered(m, active, local) && c == Candidate(m.chassis.value, m.priority);
        var i :| 0 <= i < |init| && init[i] == m;
        assert members[i].chassis != members[|members| - 1].chassis;
      }
    }
  }

  /** Whom the local chassis prefers, given that it is a member itself. */
  lemma OrderedFirst(g: Group, tunnels: set<string>, local: string, priority: int)
    requires Ok(g) && IsMember(g, local, priority)
    ensures var order := Ordered(g, Some(tunnels), local);
            (order.Some? && order.value[0].name == local) <==>
            Foremost(g, tunnels, local, priority) && (SeesAnother(g, tunnels, local) || Refers(g.refs, tunnels))
  {
    var cs := Candidates(g.members, Some(tunnels), local);
    var me := Candidate(local, priority);
    CandidateMember(g, tunnels, local, me);
    CandidatesDistinct(g.members, Some(tunnels), local);
    if SeesAnother(g, tunnels, local) {
      var m :| m in g.members && Seen(m, tunnels, local);
      var other := Candidate(m.chassis.value, m.priority);
      assert Considered(m, Some(tunnels), local);
      assert other in cs && me in cs && other != me;
      TwoMembers(cs, me, other);
      SeveralCandidates(g, tunnels, local, me);
    } else {
      assert Foremost(g, tunnels, local, priority);
      forall c | c in cs ensures c == me {
        CandidateMember(g, tunnels, local, c);
        assert c.name != local ==> Seen(Member(Some(c.name), c.priority), tunnels, local);
        assert c.name == local;
        OnePriority(g, local, priority, c.priority);
      }
      if |cs| > 1 {
        FirstTwo(cs);
        assert false;
      }
    }
  }

  lemma FirstTwo<T>(s: seq<T>)
    requires |s| >= 2 && Distinct(s)
    ensures s[0] in s && s[1] in s && s[0] != s[1]
  {
  }

  lemma TwoMembers<T>(s: seq<T>, a: T, b: T)
    requires a in s && b in s && a != b
    ensures |s| >= 2
  {
  }

  lemma SeveralCandidates(g: Group, tunnels: set<string>, local: string, me: Candidate)
    requires Ok(g) && IsMember(g, me.name, me.priority) && me.name == local
    requires me in Candidates(g.members, Some(tunnels), local)
    ensures Sort(Candidates(g.members, Some(tunnels), local), Compare)[0].name == local <==>
            Foremost(g, tunnels, local, me.priority)
  {
    var cs := Candidates(g.members, Some(tunnels), local);
    forall c | c in cs ensures InRange(c) {
      CandidateMember(g, tunnels, local, c);
    }
    var first := Sort(cs, Compare)[0];
    FirstPrecedes(cs, me);
    CandidateMember(g, tunnels, local, first);
    if first.name == local {
      OnePriority(g, local, me.priority, first.priority);
      forall m | m in g.members && Seen(m, tunnels, local)
        ensures Precedes(me, Candidate(m.chassis.value, m.priority)) {
        var c := Candidate(m.chassis.value, m.priority);
        assert Considered(m, Some(tunnels), local);
        FirstPrecedes(cs, c);
      }
    } else {
      var m := Member(Some(first.name), first.priority);
      assert Seen(m, tunnels, local);
      PrecedesOrder(first, me, first);
    }
  }

  lemma ActiveOfSeveral(g: Group, tunnels: set<string>, local: string)
    requires Ok(g) && |g.members| >= 2
    ensures IsActive(Some(g), tunnels, local) <==>
            && tunnels != {}
            && (exists p :: IsMember(g, local, p) && Foremost(g, tunnels, local, p))
            && (SeesAnother(g, tunnels, local) || Refers(g.refs, tunnels))
  {
    if exists p :: IsMember(g, local, p) {
      var p :| IsMember(g, local, p);
      OrderedFirst(g, tunnels, local, p);
      forall q | IsMember(g, local, q) ensures q == p {
        OnePriority(g, local, p, q);
      }
    } else {
      var order := Ordered(g, Some(tunnels), local);
      if order.Some? {
        var first := order.value[0];
        assert first in Candidates(g.members, Some(tunnels), local);
        CandidateMember(g, tunnels, local, first);
        assert IsMember(g, first.name, first.priority);
      }
    }
  }

  /** A member is the only one, whatever its tunnels, or else has some tunnel up,
    * precedes every member that it sees, and sees another member or at least one
    * chassis that refers to the group. */
  ghost predicate Leads(g: Group, tunnels: set<string>, local: string, priority: int) {
    || |g.members| == 1
    || (&& tunnels != {} && Foremost(g, tunnels, local, priority)
        && (SeesAnother(g, tunnels, local) || Refers(g.refs, tunnels)))
  }

  /** A chassis is active for a group exactly if it is a member of it that leads. */
  lemma ActiveIff(g: Option<Group>, tunnels: set<string>, local: string)
    requires g.Some? ==> Ok(g.value)
    ensures IsActive(g, tunnels, local) <==>
            g.Some? && exists p :: IsMember(g.value, local, p) && Leads(g.value, tunnels, local, p)
  {
    if g.Some? {
      if |g.value.members| >= 2 {
        ActiveOfSeveral(g.value, tunnels, local);
      } else if |g.value.members| == 1 {
        var m := g.value.members[0];
        assert m.chassis == Some(local) ==> IsMember(g.value, local, m.priority);
      }
    }
  }

  /** Two chassis that see each other are never both active for a group. */
  lemma NeverBothActive(g: Group, a: string, aTunnels: set<string>, b: string, bTunnels: set<string>)
    requires Ok(g) && a != b && b in aTunnels && a in bTunnels
    ensures !(IsActive(Some(g), aTunnels, a) && IsActive(Some(g), bTunnels, b))
  {
    if |g.members| >= 2 {
      ActiveOfSeveral(g, aTunnels, a);
      ActiveOfSeveral(g, bTunnels, b);
      if IsActive(Some(g), aTunnels, a) && IsActive(Some(g), bTunnels, b) {
        var p :| IsMember(g, a, p) && Foremost(g, aTunnels, a, p);
        var q :| IsMember(g, b, q) && Foremost(g, bTunnels, b, q);
        assert Seen(Member(Some(b), q), aTunnels, a) && Seen(Member(Some(a), p), bTunnels, b);
        PrecedesOrder(Candidate(a, p), Candidate(b, q), Candidate(a, p));
        assert false;
      }
    }
  }

  /** 'live' members see each other and no other member. */
  ghost predicate FullyConnected(g: Group, live: set<string>, tunnels: map<string, set<string>>) {
    && (forall c :: c in live ==> c in tunnels && exists p :: IsMember(g, c, p))
    && (forall c, m :: c in live && m in g.members && m.chassis.Some? && m.chassis.value != c ==>
          (m.chassis.value in tunnels[c] <==> m.chassis.value in live))
  }

  /** 'c' is the live member with the highest priority, then the greatest name. */
  ghost predicate IsTop(g: Group, live: set<string>, c: string) {
    c in live &&
    forall d, p, q :: d in live && d != c && IsMember(g, c, p) && IsMember(g, d, q) ==>
      Precedes(Candidate(c, p), Candidate(d, q))
  }

  /** Among two or more live members that see each other, the active ones are
    * exactly the top one. */
  lemma ActiveIsTop(g: Group, live: set<string>, tunnels: map<string, set<string>>, c: string)
    requires Ok(g) && FullyConnected(g, live, tunnels) && |live| >= 2 && c in live
    ensures IsActive(Some(g), tunnels[c], c) <==> IsTop(g, live, c)
  {
    var d := AnotherIn(live, c);
    var p :| IsMember(g, c, p);
    var q :| IsMember(g, d, q);
    TwoMembers(g.members, Member(Some(c), p), Member(Some(d), q));
    assert Seen(Member(Some(d), q), tunnels[c], c);
    ActiveOfSeveral(g, tunnels[c], c);
    forall p1 | IsMember(g, c, p1) ensures p1 == p {
      OnePriority(g, c, p, p1);
    }
    if IsActive(Some(g), tunnels[c], c) {
      forall d, p, q | d in live && d != c && IsMember(g, c, p) && IsMember(g, d, q)
        ensures Precedes(Candidate(c, p), Candidate(d, q)) {
        assert Seen(Member(Some(d), q), tunnels[c], c);
      }
    }
    if IsTop(g, live, c) {
      forall m | m in g.members && Seen(m, tunnels[c], c)
        ensures Precedes(Candidate(c, p), Candidate(m.chassis.value, m.priority)) {
        assert m == Member(Some(m.chassis.value), m.priority);
        assert IsMember(g, m.chassis.value, m.priority);
      }
    }
  }

  lemma AnotherIn(live: set<string>, c: string) returns (d: string)
    requires |live| >= 2 && c in live
    ensures d in live && d != c
  {
    assert live - {c} != {} by {
      if live - {c} == {} {
        assert live <= {c};
        SubsetCardinality(live, {c});
      }
    }
    d :| d in live - {c};
  }

  /** There is exactly one such top member. */
  lemma {:induction false} TopExists(g: Group, live: set<string>) returns (c: string)
    requires Ok(g) && live != {} && forall d :: d in live ==> exists p :: IsMember(g, d, p)
    ensures IsTop(g, live, c)
    ensures forall d :: IsTop(g, live, d) ==> d == c
    decreases |live|
  {
    var x :| x in live;
    var rest := live - {x};
    if rest == {} {
      assert live == {x};
      c := x;
    } else {
      var y := TopExists(g, rest);
      c := BetterOf(g, live, x, y);
    }
    forall d | IsTop(g, live, d) ensures d == c {
      OneTop(g, live, c, d);
    }
  }

  lemma BetterOf(g: Group, live: set<string>, x: string, y: string) returns (c: string)
    requires Ok(g) && x in live && IsTop(g, live - {x}, y) && forall d :: d in live ==> exists p :: IsMember(g, d, p)
    ensures IsTop(g, live, c)
  {
    var p :| IsMember(g, x, p);
    var q :| IsMember(g, y, q);
    var cx, cy := Candidate(x, p), Candidate(y, q);
    PrecedesOrder(cx, cy, cx);
    c := if Precedes(cx, cy) then x else y;
    forall d, p1, q1 | d in live && d != c && IsMember(g, c, p1) && IsMember(g, d, q1)
      ensures Precedes(Candidate(c, p1), Candidate(d, q1)) {
      OnePriority(g, c, p1, if c == x then p else q);
      if d == x || d == y {
        OnePriority(g, d, q1, if d == x then p else q);
      } else {
        assert d in live - {x};
        assert Precedes(cy, Candidate(d, q1));
        PrecedesOrder(cx, cy, Candidate(d, q1));
      }
    }
  }

  lemma OneTop(g: Group, live: set<string>, c: string, d: string)
    requires IsTop(g, live, c) && IsTop(g, live, d) && forall d :: d in live ==> exists p :: IsMember(g, d, p)
    ensures c == d
  {
    if c != d {
      var p :| IsMember(g, c, p);
      var q :| IsMember(g, d, q);
      PrecedesOrder(Candidate(c, p), Candidate(d, q), Candidate(c, p));
      assert false;
    }
  }

  /** A live member that sees no other is active in a group of one, or if a chassis
    * that it sees refers to the group. */
  lemma LoneActive(g: Group, live: set<string>, tunnels: map<string, set<string>>, c: string)
    requires Ok(g) && FullyConnected(g, live, tunnels) && live == {c}
    requires |g.members| == 1 || Refers(g.refs, tunnels[c])
    ensures IsActive(Some(g), tunnels[c], c)
  {
    ActiveIff(Some(g), tunnels[c], c);
    var p :| IsMember(g, c, p);
    assert Foremost(g, tunnels[c], c, p);
  }

  /** Exactly one of the live members that see each other is active, if there are
    * several, or if the only one is all of the group or is seen by a chassis that
    * refers to the group. */
  lemma ExactlyOneActive(g: Group, live: set<string>, tunnels: map<string, set<string>>) returns (c: string)
    requires Ok(g) && FullyConnected(g, live, tunnels) && live != {}
    requires |live| == 1 ==> |g.members| == 1 || forall c :: c in live ==> Refers(g.refs, tunnels[c])
    ensures IsTop(g, live, c)
    ensures forall d :: d in live ==> (IsActive(Some(g), tunnels[d], d) <==> d == c)
  {
    c := TopExists(g, live);
    if |live| >= 2 {
      forall d | d in live ensures IsActive(Some(g), tunnels[d], d) <==> d == c {
        ActiveIsTop(g, live, tunnels, d);
      }
    } else {
      OnlyOne(live, c);
      LoneActive(g, live, tunnels, c);
    }
  }

  lemma OnlyOne(live: set<string>, c: string)
    requires c in live && |live| < 2
    ensures live == {c}
  {
    if live != {c} {
      ProperSubsetCardinality({c}, live);
    }
  }

  // ----- the whole order

  lemma {:induction false} SortedBefore(cs: seq<Candidate>, i: nat, j: nat)
    requires Sorted(cs, Compare) && i < j < |cs|
    ensures Compare(cs[i], cs[j]) <= 0
  {
    if i == 0 {
      assert cs[j] in cs[1..];
    } else {
      SortedBefore(cs[1..], i - 1, j - 1);
    }
  }

  /** 'c' is a member that counts. */
  ghost predicate Counts(g: Group, active: Option<set<string>>, local: string, c: Candidate) {
    IsMember(g, c.name, c.priority) && (c.name == local || active.None? || c.name in active.value)
  }

  lemma CandidateCounts(g: Group, active: Option<set<string>>, local: string, c: Candidate)
    ensures c in Candidates(g.members, active, local) <==> Counts(g, active, local, c)
  {
    if Counts(g, active, local, c) {
      assert Considered(Member(Some(c.name), c.priority), active, local);
    }
  }

  /** The list has exactly the members that count, each before the ones that it
    * precedes. */
  lemma OrderedList(g: Group, active: Option<set<string>>, local: string)
    requires Ok(g) && Ordered(g, active, local).Some?
    ensures var r := Ordered(g, active, local).value;
            && (forall c :: c in r <==> Counts(g, active, local, c))
            && forall i, j :: 0 <= i < j < |r| ==> Precedes(r[i], r[j])
  {
    var cs := Candidates(g.members, active, local);
    forall c ensures c in cs <==> Counts(g, active, local, c) {
      CandidateCounts(g, active, local, c);
    }
    if |cs| > 1 {
      CandidatesDistinct(g.members, active, local);
      OrderedPrecedes(cs, Ordered(g, active, local).value);
    }
  }

  /** There is one if and only if some member counts, and if it is the only one that
    * does, then tunnels do not matter or lead to a chassis that refers to the group. */
  lemma OrderedIff(g: Group, active: Option<set<string>>, local: string)
    requires Ok(g)
    ensures Ordered(g, active, local).Some? <==>
            exists c :: Counts(g, active, local, c)
                        && (OnlyThat(g, active, local, c) && active.Some? ==> Refers(g.refs, active.value))
  {
    var cs := Candidates(g.members, active, local);
    forall c ensures c in cs <==> Counts(g, active, local, c) {
      CandidateCounts(g, active, local, c);
    }
    if cs != [] {
      CandidatesDistinct(g.members, active, local);
      assert cs[0] in cs;
      if |cs| > 1 {
        FirstTwo(cs);
        assert !OnlyThat(g, active, local, cs[0]);
      } else {
        assert forall c :: c in cs ==> c == cs[0];
        assert OnlyThat(g, active, local, cs[0]);
      }
    }
  }

  ghost predicate OnlyThat(g: Group, active: Option<set<string>>, local: string, c: Candidate) {
    forall d :: Counts(g, active, local, d) ==> d == c
  }

  lemma OrderedPrecedes(cs: seq<Candidate>, r: seq<Candidate>)
    requires (forall c :: c in cs ==> InRange(c)) && Distinct(cs) && r == Sort(cs, Compare)
    ensures forall i, j :: 0 <= i < j < |r| ==> Precedes(r[i], r[j])
  {
    CompareTotal(cs);
    SortSorted(cs, Compare, Members(cs));
    SortDistinct(cs, Compare);
    forall i, j | 0 <= i < j < |r| ensures Precedes(r[i], r[j]) {
      SortedBefore(r, i, j);
      assert r[i] in r && r[j] in r;
      CompareMeaning(r[i], r[j]);
    }
  }
}
