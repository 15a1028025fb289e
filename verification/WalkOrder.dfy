/** The order in which patch ports are followed, and what it decides: the walk gets
  * to each datapath by the first path without repetition. */
module WalkOrder {
  import opened LocalDatapaths
  import opened DepthLimit

  // ----- the first path

  function IndexOf(qs: seq<nat>, q: nat): (i: nat)
    requires q in qs
    ensures i < |qs| && qs[i] == q && forall m :: 0 <= m < i ==> qs[m] != q
  {
    if qs[0] == q then 0 else
      assert qs == [qs[0]] + qs[1..];
      1 + IndexOf(qs[1..], q)
  }

  predicate SameUpTo(a: seq<nat>, b: seq<nat>, i: nat) {
    i < |a| && i < |b| && forall m :: 0 <= m <= i ==> a[m] == b[m]
  }

  /** Path 'a' leaves 'b' after position 'i', by an earlier port. */
  ghost predicate BranchesAt(ports: seq<Port>, a: seq<nat>, b: seq<nat>, i: nat) {
    && i + 1 < |a| && i + 1 < |b| && SameUpTo(a, b, i)
    && a[i + 1] in Peers(ports, a[i]) && b[i + 1] in Peers(ports, a[i])
    && IndexOf(Peers(ports, a[i]), a[i + 1]) < IndexOf(Peers(ports, a[i]), b[i + 1])
  }

  /** Path 'a' comes before 'b' in the order of the ports. */
  ghost predicate Before(ports: seq<Port>, a: seq<nat>, b: seq<nat>) {
    exists i: nat :: BranchesAt(ports, a, b, i)
  }

  /** The first of all paths from 'r' to 'k' without repetition. */
  ghost predicate FirstPath(ports: seq<Port>, r: nat, k: nat, path: seq<nat>) {
    && SimplePath(ports, r, k, path)
    && forall b :: SimplePath(ports, r, k, b) && b != path ==> Before(ports, path, b)
  }

  lemma BranchOnce(ports: seq<Port>, a: seq<nat>, b: seq<nat>, i: nat, j: nat)
    requires BranchesAt(ports, a, b, i)
    ensures !BranchesAt(ports, b, a, j)
  {
  }

  lemma BeforeIsStrict(ports: seq<Port>, a: seq<nat>, b: seq<nat>)
    requires Before(ports, a, b)
    ensures !Before(ports, b, a)
  {
    var i: nat :| BranchesAt(ports, a, b, i);
    forall j: nat ensures !BranchesAt(ports, b, a, j) {
      BranchOnce(ports, a, b, i, j);
    }
  }

  /** There is only one. */
  lemma FirstIsUnique(ports: seq<Port>, r: nat, k: nat, a: seq<nat>, b: seq<nat>)
    requires FirstPath(ports, r, k, a) && FirstPath(ports, r, k, b)
    ensures a == b
  {
    if a != b {
      BeforeIsStrict(ports, a, b);
    }
  }

  /** Two paths to one datapath, where neither repeats, part somewhere. */
  lemma PartAt(ports: seq<Port>, r: nat, k: nat, a: seq<nat>, b: seq<nat>) returns (i: nat)
    requires SimplePath(ports, r, k, a) && SimplePath(ports, r, k, b) && a != b
    ensures i + 1 < |a| && i + 1 < |b| && SameUpTo(a, b, i) && a[i + 1] != b[i + 1]
  {
    i := 0;
    while i + 1 < |a| && i + 1 < |b| && a[i + 1] == b[i + 1]
      invariant SameUpTo(a, b, i)
      decreases |a| - i
    {
      i := i + 1;
    }
    assert i + 1 == |a| <==> i + 1 == |b|;
  }

  // ----- the walk keeps to the order

  /** 'seen' is what was local when 'trail[i]' was found: all before it on the trail
    * and nothing after it; of the other datapaths, all peers; and the peers that
    * come before it. */
  ghost predicate FoundAt(ports: seq<Port>, trail: seq<nat>, i: nat, seen: set<nat>)
    requires i < |trail|
  {
    && (forall j :: 0 <= j < |trail| ==> (trail[j] in seen <==> j < i))
    && (forall x :: x in seen && x !in trail ==> AllIn(Peers(ports, x), seen))
    && (i > 0 ==>
          && trail[i] in Peers(ports, trail[i - 1])
          && AllIn(Peers(ports, trail[i - 1])[..IndexOf(Peers(ports, trail[i - 1]), trail[i])], seen))
  }

  /** The walk is about to find 'dp', over 'trail'; 'seen' tells what was local at
    * each step, and 'keys' what is now. */
  ghost predicate Walking(ports: seq<Port>, r: nat, dp: nat, trail: seq<nat>, seen: seq<set<nat>>, keys: set<nat>) {
    && SimplePath(ports, r, dp, trail) && |seen| == |trail| && seen[|seen| - 1] == keys
    && (forall i :: 0 <= i < |trail| ==> FoundAt(ports, trail, i, seen[i]))
    && (forall i :: 0 <= i < |trail| ==> seen[i] <= keys)
  }

  /** What an earlier port leads to was finished before, and does not lead back. */
  lemma StaysInSeen(ports: seq<Port>, trail: seq<nat>, i: nat, seen: set<nat>, b: seq<nat>, r: nat, k: nat)
    requires i + 1 < |trail| && FoundAt(ports, trail, i + 1, seen)
    requires SimplePath(ports, r, k, b) && i + 1 < |b| && SameUpTo(trail, b, i) && b[i + 1] in seen
    ensures k in seen
  {
    var j := i + 1;
    while j < |b| - 1
      invariant i + 1 <= j < |b| && b[j] in seen
    {
      assert b[j] !in trail by {
        assert forall m :: 0 <= m < |trail| ==> if m <= i then trail[m] == b[m] else trail[m] !in seen;
      }
      assert b[j + 1] in Peers(ports, b[j]);
      j := j + 1;
    }
  }

  /** The trail is the first path. */
  lemma TrailIsFirst(ports: seq<Port>, r: nat, dp: nat, trail: seq<nat>, seen: seq<set<nat>>, keys: set<nat>)
    requires Walking(ports, r, dp, trail, seen, keys)
    ensures FirstPath(ports, r, dp, trail)
  {
    forall b | SimplePath(ports, r, dp, b) && b != trail ensures Before(ports, trail, b) {
      ComesBefore(ports, r, dp, trail, seen, keys, b);
    }
  }

  lemma ComesBefore(ports: seq<Port>, r: nat, dp: nat, trail: seq<nat>, seen: seq<set<nat>>, keys: set<nat>,
                    b: seq<nat>)
    requires Walking(ports, r, dp, trail, seen, keys) && SimplePath(ports, r, dp, b) && b != trail
    ensures Before(ports, trail, b)
  {
    var i := PartAt(ports, r, dp, trail, b);
    assert trail[i + 1] in Peers(ports, trail[i]) && b[i + 1] in Peers(ports, b[i]);
    assert FoundAt(ports, trail, i + 1, seen[i + 1]);
    var qs := Peers(ports, trail[i]);
    var m, n := IndexOf(qs, b[i + 1]), IndexOf(qs, trail[i + 1]);
    if m < n {
      assert qs[..n][m] == b[i + 1];
      assert trail[|trail| - 1] !in seen[i + 1];
      StaysInSeen(ports, trail, i, seen[i + 1], b, r, dp);
    } else {
      assert BranchesAt(ports, trail, b, i);
    }
  }

  /** A datapath with peers whose first path is too long for them to be followed. */
  ghost predicate LongFirst(ports: seq<Port>, r: nat, k: nat, path: seq<nat>) {
    FirstPath(ports, r, k, path) && |path| > MAX_DEPTH && Peers(ports, k) != []
  }

  ghost predicate SomeLongFirst(ports: seq<Port>, r: nat, seen: set<nat>) {
    exists k, path :: k !in seen && LongFirst(ports, r, k, path)
  }

  ghost predicate ShortFirst(ports: seq<Port>, r: nat, k: nat) {
    exists path :: FirstPath(ports, r, k, path) && (Peers(ports, k) != [] ==> |path| <= MAX_DEPTH)
  }

  ghost predicate NewShort(ports: seq<Port>, r: nat, before: set<nat>, keys: set<nat>) {
    forall k :: k in keys && k !in before ==> ShortFirst(ports, r, k)
  }

  /** If the walk was cut off, some first path is too long; if not, those to what
    * it has added are short enough. */
  ghost predicate WalkedFirst(ports: seq<Port>, r: nat, first: set<nat>, before: set<nat>, keys: set<nat>, cut: bool) {
    if cut then SomeLongFirst(ports, r, first) else NewShort(ports, r, before, keys)
  }

  lemma {:induction false} PeersAreFirst(ports: seq<Port>, dp: nat, n: nat, m: nat)
    requires n <= m <= |ports|
    ensures PeersUpTo(ports, dp, n) <= PeersUpTo(ports, dp, m)
    decreases m
  {
    if n < m {
      PeersAreFirst(ports, dp, n, m - 1);
    }
  }

  /** A peer that is not local yet comes right after those followed so far. */
  lemma EarlierPeers(ports: seq<Port>, dp: nat, n: nat, q: nat)
    requires 0 < n <= |ports| && PeerOf(ports, ports[n - 1], dp) == [q]
    ensures q in Peers(ports, dp)
    ensures Peers(ports, dp)[..IndexOf(Peers(ports, dp), q)] <= PeersUpTo(ports, dp, n - 1)
  {
    var qs, so := Peers(ports, dp), PeersUpTo(ports, dp, n - 1);
    PeersAreFirst(ports, dp, n, |ports|);
    assert PeersUpTo(ports, dp, n) == so + [q];
    assert qs[|so|] == q && so == qs[..|so|];
    assert IndexOf(qs, q) <= |so|;
  }

  /** The next datapath on the trail. */
  lemma WalkOn(ports: seq<Port>, r: nat, before: Locals, local: Locals, dp: nat, l3: bool, trail: seq<nat>,
               seen: seq<set<nat>>, n: nat, q: nat)
    requires Walking(ports, r, dp, trail, seen, before.Keys)
    requires 0 < n <= |ports| && PeerOf(ports, ports[n - 1], dp) == [q] && q !in local
    requires Following(ports, before, local, dp, l3, false, n - 1)
    ensures Walking(ports, r, q, trail + [q], seen + [local.Keys], local.Keys)
  {
    EarlierPeers(ports, dp, n, q);
    LongerPath(ports, r, dp, q, trail);
    var trail1, seen1 := trail + [q], seen + [local.Keys];
    assert NoRepeats(trail1) by {
      assert FoundAt(ports, trail, |trail| - 1, seen[|trail| - 1]);
      assert forall j :: 0 <= j < |trail| ==> trail[j] in local;
    }
    forall i | 0 <= i < |trail1| ensures FoundAt(ports, trail1, i, seen1[i]) && seen1[i] <= local.Keys {
      if i < |trail| {
        FoundEarlier(ports, trail, i, seen[i], q);
      } else {
        FoundNow(ports, before, local, dp, l3, trail, n, q);
      }
    }
  }

  lemma FoundEarlier(ports: seq<Port>, trail: seq<nat>, i: nat, seen: set<nat>, q: nat)
    requires i < |trail| && FoundAt(ports, trail, i, seen) && q !in seen
    ensures FoundAt(ports, trail + [q], i, seen)
  {
    var trail1 := trail + [q];
    assert forall j :: 0 <= j < |trail| ==> trail1[j] == trail[j];
    assert forall x :: x in trail1 <==> x in trail || x == q;
  }

  lemma FoundNow(ports: seq<Port>, before: Locals, local: Locals, dp: nat, l3: bool, trail: seq<nat>, n: nat, q: nat)
    requires trail != [] && trail[|trail| - 1] == dp && FoundAt(ports, trail, |trail| - 1, before.Keys)
    requires 0 < n <= |ports| && q !in local && q in Peers(ports, dp)
    requires Peers(ports, dp)[..IndexOf(Peers(ports, dp), q)] <= PeersUpTo(ports, dp, n - 1)
    requires Following(ports, before, local, dp, l3, false, n - 1)
    ensures FoundAt(ports, trail + [q], |trail|, local.Keys)
  {
    var trail1 := trail + [q];
    forall x | x in local.Keys && x !in trail1 ensures AllIn(Peers(ports, x), local.Keys) {
      assert x !in trail by { assert x in trail ==> x in trail1; }
      if x !in before {
        assert x in local.Keys - before.Keys - {dp};
      }
    }
  }

  lemma WalkedMore(ports: seq<Port>, r: nat, first: set<nat>, before: set<nat>, keys: set<nat>, keys1: set<nat>,
                   cut: bool, cut1: bool)
    requires WalkedFirst(ports, r, first, before, keys, cut)
    requires !cut ==> WalkedFirst(ports, r, first, keys, keys1, cut1)
    ensures WalkedFirst(ports, r, first, before, keys1, cut || cut1)
  {
  }

  lemma {:induction false} WalkFirst(ports: seq<Port>, r: nat, local: Locals, dp: nat, l3: bool, depth: nat,
                                     trail: seq<nat>, seen: seq<set<nat>>, after: Locals, cut: bool)
    requires depth <= MAX_DEPTH && |trail| == depth + 1 && Walking(ports, r, dp, trail, seen, local.Keys)
    requires Discover(ports, local, dp, l3, depth) == (after, cut)
    ensures WalkedFirst(ports, r, seen[0], local.Keys, after.Keys, cut)
    decreases MAX_DEPTH - depth, |ports| + 1
  {
    assert FoundAt(ports, trail, 0, seen[0]) && FoundAt(ports, trail, depth, seen[depth]);
    assert dp !in seen[0] && dp !in local;
    TrailIsFirst(ports, r, dp, trail, seen, local.Keys);
    if depth == MAX_DEPTH {
      if cut {
        assert LongFirst(ports, r, dp, trail);
      } else {
        assert ShortFirst(ports, r, dp);
      }
    } else {
      FollowFirst(ports, r, local, dp, l3, depth, trail, seen, |ports|, after, cut);
      assert ShortFirst(ports, r, dp);
    }
  }

  lemma {:induction false} FollowFirst(ports: seq<Port>, r: nat, before: Locals, dp: nat, l3: bool, depth: nat,
                                       trail: seq<nat>, seen: seq<set<nat>>, n: nat, local: Locals, cut: bool)
    requires depth < MAX_DEPTH && |trail| == depth + 1 && Walking(ports, r, dp, trail, seen, before.Keys)
    requires n <= |ports| && dp !in before
    requires Follow(ports, before[dp := Local(l3, [])], dp, depth, n) == (local, cut)
    ensures WalkedFirst(ports, r, seen[0], before.Keys + {dp}, local.Keys, cut)
    decreases MAX_DEPTH - depth, n
  {
    if n > 0 {
      var start := before[dp := Local(l3, [])];
      var (local0, cut0) := Follow(ports, start, dp, depth, n - 1);
      FollowFirst(ports, r, before, dp, l3, depth, trail, seen, n - 1, local0, cut0);
      var qs := PeerOf(ports, ports[n - 1], dp);
      if qs == [] {
        FollowSame(ports, start, dp, depth, n);
      } else {
        FollowNext(ports, start, dp, depth, n, qs[0]);
        var (local1, cut1) := Discover(ports, local0, qs[0], false, depth + 1);
        assert local.Keys == local1.Keys;
        if !cut0 && qs[0] !in local0 {
          PeerFirst(ports, r, before, local0, dp, l3, depth, trail, seen, n, qs[0], local1, cut1);
        }
        WalkedMore(ports, r, seen[0], before.Keys + {dp}, local0.Keys, local1.Keys, cut0, cut1);
      }
    }
  }

  lemma {:induction false} PeerFirst(ports: seq<Port>, r: nat, before: Locals, local: Locals, dp: nat, l3: bool,
                                     depth: nat, trail: seq<nat>, seen: seq<set<nat>>, n: nat, q: nat,
                                     after: Locals, cut: bool)
    requires depth < MAX_DEPTH && |trail| == depth + 1 && Walking(ports, r, dp, trail, seen, before.Keys)
    requires 0 < n <= |ports| && dp !in before && PeerOf(ports, ports[n - 1], dp) == [q] && q !in local
    requires Follow(ports, before[dp := Local(l3, [])], dp, depth, n - 1) == (local, false)
    requires Discover(ports, local, q, false, depth + 1) == (after, cut)
    ensures WalkedFirst(ports, r, seen[0], local.Keys, after.Keys, cut)
    decreases MAX_DEPTH - depth, 0
  {
    FollowAdds(ports, before, dp, l3, depth, n - 1, local, false);
    WalkOn(ports, r, before, local, dp, l3, trail, seen, n, q);
    WalkFirst(ports, r, local, q, false, depth + 1, trail + [q], seen + [local.Keys], after, cut);
  }

  // ----- when the outcome is exact

  lemma RequestWalk(ports: seq<Port>, local: Locals, dp: nat)
    requires dp !in local && forall x :: x in local ==> AllIn(Peers(ports, x), local.Keys)
    ensures Walking(ports, dp, dp, [dp], [local.Keys], local.Keys)
  {
    assert FoundAt(ports, [dp], 0, local.Keys);
  }

  /** The n-th request comes upon a datapath with peers that no earlier one reaches,
    * by a first path that is too long. */
  ghost predicate FirstTooLong(ports: seq<Port>, requests: seq<(nat, bool)>, n: nat, k: nat, path: seq<nat>) {
    && n < |requests| && LongFirst(ports, requests[n].0, k, path)
    && forall r :: r in Requested(requests[..n]) ==> !Reaches(ports, r, k)
  }

  lemma ReachesOn(ports: seq<Port>, a: nat, b: nat, c: nat)
    requires Reaches(ports, a, b) && Reaches(ports, b, c)
    ensures Reaches(ports, a, c)
  {
    var p :| IsPath(ports, a, b, p);
    var q :| IsPath(ports, b, c, q);
    var all := p + q[1..];
    forall i | 0 <= i < |all| - 1 ensures all[i + 1] in Peers(ports, all[i]) {
      if i < |p| - 1 {
        assert p[i + 1] in Peers(ports, p[i]);
      } else {
        var m := i - (|p| - 1);
        assert q[m + 1] in Peers(ports, q[m]);
      }
    }
    assert IsPath(ports, a, c, all);
  }

  /** What is exact is closed under peers. */
  lemma ExactIsClosed(ports: seq<Port>, local: Locals, requested: set<nat>, gateways: set<nat>)
    requires Exact(ports, local, requested, gateways)
    ensures forall x :: x in local ==> AllIn(Peers(ports, x), local.Keys)
  {
    forall x, q | x in local && q in Peers(ports, x) ensures q in local {
      ExactClosed(ports, local, requested, gateways, x, q);
    }
  }

  lemma OneMore(ports: seq<Port>, requests: seq<(nat, bool)>, n: nat)
    requires n < |requests|
    ensures var (local, cut) := DiscoverAll(ports, requests[..n]);
            var (local1, cut1) := Discover(ports, local, requests[n].0, requests[n].1, 0);
            DiscoverAll(ports, requests[..n + 1]) == (local1, cut || cut1)
    ensures Requested(requests[..n + 1]) == Requested(requests[..n]) + {requests[n].0}
  {
    var (dp, l3) := requests[n];
    assert requests[..n + 1][..n] == requests[..n];
    DiscoverAllMore(ports, requests[..n + 1], n);
    assert requests[..n + 1] == requests[..n] + [(dp, l3)];
    RequestMore(requests[..n], dp, l3);
  }

  /** One more request, when all before it are exact. */
  lemma OneMoreWalk(ports: seq<Port>, requests: seq<(nat, bool)>, n: nat)
    requires n < |requests| && ExactFor(ports, requests[..n])
    requires requests[n].0 !in DiscoverAll(ports, requests[..n]).0
    ensures var keys := DiscoverAll(ports, requests[..n]).0.Keys;
            var (local1, cut) := DiscoverAll(ports, requests[..n + 1]);
            WalkedFirst(ports, requests[n].0, keys, keys, local1.Keys, cut)
  {
    var (dp, l3) := requests[n];
    var local := DiscoverAll(ports, requests[..n]).0;
    OneMore(ports, requests, n);
    ExactIff(ports, requests[..n]);
    ExactIsClosed(ports, local, Requested(requests[..n]), Gateways(requests[..n]));
    RequestWalk(ports, local, dp);
    var (local1, cut) := Discover(ports, local, dp, l3, 0);
    WalkFirst(ports, dp, local, dp, l3, 0, [dp], [local.Keys], local1, cut);
  }

  /** One after which the walk is cut off. */
  lemma CutHere(ports: seq<Port>, requests: seq<(nat, bool)>, n: nat)
    requires n < |requests| && ExactFor(ports, requests[..n]) && !ExactFor(ports, requests[..n + 1])
    ensures exists k, path :: FirstTooLong(ports, requests, n, k, path)
  {
    var dp, keys := requests[n].0, DiscoverAll(ports, requests[..n]).0.Keys;
    OneMore(ports, requests, n);
    ExactIff(ports, requests[..n]);
    ExactIff(ports, requests[..n + 1]);
    OneMoreWalk(ports, requests, n);
    var k, path :| k !in keys && LongFirst(ports, dp, k, path);
    assert FirstTooLong(ports, requests, n, k, path);
  }

  lemma NotReachedYet(ports: seq<Port>, keys: set<nat>, requested: set<nat>, dp: nat, k: nat)
    requires ReachedFrom(ports, keys, requested) && Reaches(ports, dp, k)
    requires forall r :: r in requested ==> !Reaches(ports, r, k)
    ensures k !in keys && dp !in keys
  {
    if dp in keys {
      var r :| r in requested && Reaches(ports, r, dp);
      ReachesOn(ports, r, dp, k);
    }
  }

  lemma ReachedNow(ports: seq<Port>, keys: set<nat>, requested: set<nat>, dp: nat, k: nat)
    requires ReachedFrom(ports, keys, requested) && Reaches(ports, dp, k) && dp in requested
    ensures k in keys
  {
  }

  lemma TooLongIsCut(ports: seq<Port>, requests: seq<(nat, bool)>, n: nat, k: nat, path: seq<nat>)
    requires FirstTooLong(ports, requests, n, k, path) && ExactFor(ports, requests[..n])
    ensures !ExactFor(ports, requests[..n + 1])
  {
    if ExactFor(ports, requests[..n + 1]) {
      var dp := requests[n].0;
      assert Reaches(ports, dp, k);
      NotReachedYet(ports, DiscoverAll(ports, requests[..n]).0.Keys, Requested(requests[..n]), dp, k);
      OneMore(ports, requests, n);
      ReachedNow(ports, DiscoverAll(ports, requests[..n + 1]).0.Keys, Requested(requests[..n + 1]), dp, k);
      ExactIff(ports, requests[..n + 1]);
      OneMoreWalk(ports, requests, n);
      assert ShortFirst(ports, dp, k);
      NotBoth(ports, dp, k, path);
    }
  }

  lemma NotBoth(ports: seq<Port>, r: nat, k: nat, path: seq<nat>)
    requires LongFirst(ports, r, k, path)
    ensures !ShortFirst(ports, r, k)
  {
    if ShortFirst(ports, r, k) {
      var short :| FirstPath(ports, r, k, short) && (Peers(ports, k) != [] ==> |short| <= MAX_DEPTH);
      FirstIsUnique(ports, r, k, path, short);
    }
  }

  lemma NothingIsExact(ports: seq<Port>, requests: seq<(nat, bool)>)
    ensures ExactFor(ports, requests[..0])
  {
    assert requests[..0] == [];
    ExactIff(ports, []);
  }

  /** The first request after which the outcome is not exact. */
  lemma {:induction false} FirstCut(ports: seq<Port>, requests: seq<(nat, bool)>, m: nat) returns (n: nat)
    requires m <= |requests| && !ExactFor(ports, requests[..m])
    ensures n < |requests| && ExactFor(ports, requests[..n]) && !ExactFor(ports, requests[..n + 1])
  {
    if m == 0 {
      NothingIsExact(ports, requests);
      assert false;
    } else if ExactFor(ports, requests[..m - 1]) {
      n := m - 1;
    } else {
      n := FirstCut(ports, requests, m - 1);
    }
  }

  /** Whatever the topology: the outcome is exact if and only if the first path,
    * without repetition and in the order of the ports, to every datapath with peers
    * is short enough, from the first request that reaches the datapath. */
  lemma ExactIffFirstPaths(ports: seq<Port>, requests: seq<(nat, bool)>)
    ensures !ExactFor(ports, requests) <==> exists n: nat, k, path :: FirstTooLong(ports, requests, n, k, path)
  {
    if !ExactFor(ports, requests) {
      assert requests[..|requests|] == requests;
      var n := FirstCut(ports, requests, |requests|);
      CutHere(ports, requests, n);
    }
    if n: nat, k, path :| FirstTooLong(ports, requests, n, k, path) {
      if ExactFor(ports, requests[..n]) {
        TooLongIsCut(ports, requests, n, k, path);
        NeverRepaired(ports, requests, n + 1);
      } else {
        NeverRepaired(ports, requests, n);
      }
    }
  }

  lemma IsRequested(requests: seq<(nat, bool)>, n: nat)
    requires n < |requests|
    ensures requests[n].0 in Requested(requests)
  {
    var (dp, l3) := requests[n];
    assert (dp, l3) in requests;
    assert l3 == true || l3 == false;
  }

  lemma ShorterPath(ports: seq<Port>, r: nat, k: nat, path: seq<nat>, m: nat)
    requires SimplePath(ports, r, k, path) && 0 < m <= |path|
    ensures SimplePath(ports, r, path[m - 1], path[..m])
  {
    var short := path[..m];
    forall i | 0 <= i < |short| - 1 ensures short[i + 1] in Peers(ports, short[i]) {
      assert path[i + 1] in Peers(ports, path[i]);
    }
  }

  lemma LongIsDeep(ports: seq<Port>, r: nat, k: nat, path: seq<nat>) returns (d: nat, trail: seq<nat>)
    requires LongFirst(ports, r, k, path)
    ensures TooDeep(ports, r, d, trail) && Peers(ports, d) != []
  {
    var m := MAX_DEPTH + 1;
    ShorterPath(ports, r, k, path, m);
    d, trail := path[m - 1], path[..m];
    if m < |path| {
      assert path[m - 1 + 1] in Peers(ports, path[m - 1]);
    }
  }

  /** If the outcome is not exact, then some datapath with peers is at the end of
    * a path without repetition that is too long. */
  lemma LostIsDeep(ports: seq<Port>, requests: seq<(nat, bool)>) returns (r: nat, k: nat, path: seq<nat>)
    requires !ExactFor(ports, requests)
    ensures r in Requested(requests) && TooDeep(ports, r, k, path) && Peers(ports, k) != []
  {
    ExactIffFirstPaths(ports, requests);
    var n: nat, end, whole :| FirstTooLong(ports, requests, n, end, whole);
    IsRequested(requests, n);
    r := requests[n].0;
    k, path := LongIsDeep(ports, r, end, whole);
  }
}
