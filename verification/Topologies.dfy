/** Topologies where the depth limit of the walk over patch ports (controller/binding.c)
  * can be told from the distances alone. */
module Topologies {
  import opened Util
  import opened LocalDatapaths
  import opened DepthLimit
  import WalkOrder

  // ----- topologies without cycles

  /** No two ways to get to a datapath, as in a tree. */
  ghost predicate Treelike(ports: seq<Port>, r: nat) {
    forall k, a, b ::
      SimplePath(ports, r, k, a) && SimplePath(ports, r, k, b) ==> a == b
  }

  lemma Shortcut(ports: seq<Port>, a: nat, b: nat, path: seq<nat>, i: nat, j: nat)
    requires IsPath(ports, a, b, path) && i < j < |path| && path[i] == path[j]
    ensures IsPath(ports, a, b, path[..i] + path[j..])
  {
    var short := path[..i] + path[j..];
    forall m | 0 <= m < |short| - 1 ensures short[m + 1] in Peers(ports, short[m]) {
      if m + 1 < i {
        assert path[m + 1] in Peers(ports, path[m]);
      } else if m + 1 == i {
        assert path[m + 1] in Peers(ports, path[m]) && short[m + 1] == path[j];
      } else {
        var x := m - i + j;
        assert path[x + 1] in Peers(ports, path[x]) && short[m] == path[x] && short[m + 1] == path[x + 1];
      }
    }
  }

  lemma {:induction false} WithoutRepeats(ports: seq<Port>, a: nat, b: nat, path: seq<nat>) returns (simple: seq<nat>)
    requires IsPath(ports, a, b, path)
    ensures SimplePath(ports, a, b, simple) && |simple| <= |path|
    decreases |path|
  {
    if i, j :| 0 <= i < j < |path| && path[i] == path[j] {
      Shortcut(ports, a, b, path, i, j);
      simple := WithoutRepeats(ports, a, b, path[..i] + path[j..]);
    } else {
      simple := path;
    }
  }

  /** Then a path without repetition is a shortest one. */
  lemma TreeDistance(ports: seq<Port>, dp: nat, k: nat, path: seq<nat>, hops: nat)
    requires Treelike(ports, dp) && SimplePath(ports, dp, k, path) && WithinHops(ports, {dp}, k, hops)
    ensures |path| <= hops + 1
  {
    var r, short :| r in {dp} && IsPath(ports, r, k, short) && |short| <= hops + 1;
    var simple := WithoutRepeats(ports, dp, k, short);
    assert simple == path;
  }

  lemma OneRequest(dp: nat, l3: bool)
    ensures Requested([(dp, l3)]) == {dp}
  {
  }

  /** Without cycles the local set for a request is the documented one if and only if
    * nothing that can be reached is more than MAX_DEPTH hops away. */
  lemma TreeLocalIff(ports: seq<Port>, dp: nat, l3: bool)
    requires Treelike(ports, dp)
    ensures LocalFor(ports, [(dp, l3)]) <==>
            forall k :: Reaches(ports, dp, k) ==> WithinHops(ports, {dp}, k, MAX_DEPTH)
  {
    OneRequest(dp, l3);
    if !LocalFor(ports, [(dp, l3)]) {
      var r, k, path := MissingIsDeep(ports, [(dp, l3)]);
      assert Reaches(ports, dp, k);
      if WithinHops(ports, {dp}, k, MAX_DEPTH) {
        TreeDistance(ports, dp, k, path, MAX_DEPTH);
        assert false;
      }
    }
    forall k | Reaches(ports, dp, k) && !WithinHops(ports, {dp}, k, MAX_DEPTH) ensures !LocalFor(ports, [(dp, l3)]) {
      FarIsMissing(ports, [(dp, l3)], dp, k);
    }
  }

  /** And the outcome is exact if and only if no datapath with peers is MAX_DEPTH or
    * more hops away. */
  lemma TreeExactIff(ports: seq<Port>, dp: nat, l3: bool)
    requires Treelike(ports, dp)
    ensures ExactFor(ports, [(dp, l3)]) <==>
            forall k :: Reaches(ports, dp, k) && Peers(ports, k) != [] ==> WithinHops(ports, {dp}, k, MAX_DEPTH - 1)
  {
    OneRequest(dp, l3);
    if !ExactFor(ports, [(dp, l3)]) {
      var r, k, path := WalkOrder.LostIsDeep(ports, [(dp, l3)]);
      assert Reaches(ports, dp, k);
      if WithinHops(ports, {dp}, k, MAX_DEPTH - 1) {
        TreeDistance(ports, dp, k, path, MAX_DEPTH - 1);
        assert false;
      }
    }
    forall k | Reaches(ports, dp, k) && Peers(ports, k) != [] && !WithinHops(ports, {dp}, k, MAX_DEPTH - 1)
      ensures !ExactFor(ports, [(dp, l3)]) {
      FarIsLost(ports, [(dp, l3)], dp, k);
    }
  }

  // ----- a chain

  function Name(n: nat): (r: string)
    ensures |r| == n
  {
    seq(n, _ => 'x')
  }

  /** 'n' + 1 datapaths in a row, each joined to the next by two patch ports. */
  function Chain(n: nat): (ports: seq<Port>)
    ensures |ports| == 2 * n
  {
    seq(2 * n, j requires j >= 0 => ChainPort(j))
  }

  function ChainPort(j: nat): (p: Port) {
    Port(Name(j), "patch", Some(Name(if j % 2 == 0 then j + 1 else j - 1)), Some((j + 1) / 2))
  }

  lemma {:induction false} ChainLookup(n: nat, m: nat, j: nat)
    requires m <= j < 2 * n
    ensures Lookup(Chain(n)[m..], Name(j)) == Some(ChainPort(j))
    decreases j - m
  {
    var ports := Chain(n)[m..];
    assert ports[0] == ChainPort(m) && ports[1..] == Chain(n)[m + 1..];
    if m < j {
      assert |Name(m)| != |Name(j)|;
      ChainLookup(n, m + 1, j);
    }
  }

  /** The port of a chain leads one up or one down. */
  lemma ChainPeer(n: nat, j: nat, d: nat)
    requires j < 2 * n
    ensures PeerOf(Chain(n), ChainPort(j), d) ==
            if d != (j + 1) / 2 then [] else if j % 2 == 0 then [d + 1] else [d - 1]
  {
    var other := if j % 2 == 0 then j + 1 else j - 1;
    assert (other + 1) / 2 == if j % 2 == 0 then (j + 1) / 2 + 1 else (j + 1) / 2 - 1;
    assert Lookup(Chain(n), Name(other)) == Some(ChainPort(other)) by {
      assert Chain(n)[0..] == Chain(n);
      ChainLookup(n, 0, other);
    }
  }

  lemma {:induction false} ChainPeersUpTo(n: nat, d: nat, m: nat)
    requires m <= 2 * n
    ensures forall q: nat :: q in PeersUpTo(Chain(n), d, m) <==>
              (q == d + 1 && 2 * d < m) || (q == d - 1 && d > 0 && 2 * d - 1 < m)
  {
    if m > 0 {
      ChainPeersUpTo(n, d, m - 1);
      ChainPeer(n, m - 1, d);
      assert Chain(n)[m - 1] == ChainPort(m - 1);
    }
  }

  /** A datapath's peers in a chain. */
  lemma ChainPeers(n: nat, d: nat)
    ensures forall q: nat :: q in Peers(Chain(n), d) <==> d <= n && q <= n && (q == d + 1 || q == d - 1)
  {
    ChainPeersUpTo(n, d, 2 * n);
    assert Peers(Chain(n), d) == PeersUpTo(Chain(n), d, 2 * n);
  }

  /** Each hop leads one up or one down. */
  lemma ChainDistance(n: nat, a: nat, k: nat, path: seq<nat>)
    requires IsPath(Chain(n), a, k, path)
    ensures a - |path| < k < a + |path| && (a <= n ==> k <= n)
  {
    var i := 0;
    while i < |path| - 1
      invariant 0 <= i < |path| && a - i <= path[i] <= a + i && (a <= n ==> path[i] <= n)
    {
      assert path[i + 1] in Peers(Chain(n), path[i]);
      ChainPeers(n, path[i]);
      i := i + 1;
    }
  }

  lemma {:induction false} ChainUp(n: nat, k: nat)
    requires k <= n
    ensures Reaches(Chain(n), 0, k)
  {
    if k == 0 {
      ReachesItself(Chain(n), 0);
    } else {
      ChainUp(n, k - 1);
      ChainPeers(n, k - 1);
      var path :| IsPath(Chain(n), 0, k - 1, path);
      LongerPath(Chain(n), 0, k - 1, k, path);
    }
  }

  /** Without turning back, the way from the first datapath is up. */
  lemma ChainSimple(n: nat, k: nat, path: seq<nat>)
    requires SimplePath(Chain(n), 0, k, path)
    ensures |path| == k + 1 && (k == 0 || k <= n) && forall m :: 0 <= m < |path| ==> path[m] == m
  {
    var i := 0;
    while i < |path| - 1
      invariant 0 <= i < |path| && (i == 0 || i <= n) && forall m :: 0 <= m <= i ==> path[m] == m
    {
      assert path[i + 1] in Peers(Chain(n), path[i]);
      ChainPeers(n, path[i]);
      assert i > 0 ==> path[i - 1] != path[i + 1];
      i := i + 1;
    }
  }

  /** And from the last one down. */
  lemma ChainSimpleDown(n: nat, k: nat, path: seq<nat>)
    requires SimplePath(Chain(n), n, k, path)
    ensures k <= n && |path| == n - k + 1 && forall m :: 0 <= m < |path| ==> path[m] == n - m
  {
    var i := 0;
    while i < |path| - 1
      invariant 0 <= i < |path| && i <= n && forall m :: 0 <= m <= i ==> path[m] == n - m
    {
      assert path[i + 1] in Peers(Chain(n), path[i]);
      ChainPeers(n, path[i]);
      assert i > 0 ==> path[i - 1] != path[i + 1];
      i := i + 1;
    }
  }

  lemma ChainWithin(n: nat, k: nat, hops: nat)
    requires WithinHops(Chain(n), {0}, k, hops)
    ensures k <= hops
  {
    var r, path :| r in {0} && IsPath(Chain(n), r, k, path) && |path| <= hops + 1;
    ChainDistance(n, 0, k, path);
  }

  /** The local set for the first datapath of a chain is the documented one if and
    * only if there are at most MAX_DEPTH + 1 datapaths. */
  lemma ChainLocalIff(n: nat, l3: bool)
    ensures LocalFor(Chain(n), [(0, l3)]) <==> n <= MAX_DEPTH
  {
    OneRequest(0, l3);
    if n > MAX_DEPTH {
      ChainUp(n, n);
      if WithinHops(Chain(n), {0}, n, MAX_DEPTH) {
        ChainWithin(n, n, MAX_DEPTH);
        assert false;
      }
      FarIsMissing(Chain(n), [(0, l3)], 0, n);
    } else if !LocalFor(Chain(n), [(0, l3)]) {
      var r, k, path := MissingIsDeep(Chain(n), [(0, l3)]);
      ChainSimple(n, k, path);
    }
  }

  /** The outcome is exact if and only if there are at most MAX_DEPTH datapaths. */
  lemma ChainExactIff(n: nat, l3: bool)
    ensures ExactFor(Chain(n), [(0, l3)]) <==> n < MAX_DEPTH
  {
    OneRequest(0, l3);
    if n >= MAX_DEPTH {
      ChainUp(n, n);
      ChainPeers(n, n);
      assert n - 1 in Peers(Chain(n), n);
      if WithinHops(Chain(n), {0}, n, MAX_DEPTH - 1) {
        ChainWithin(n, n, MAX_DEPTH - 1);
        assert false;
      }
      FarIsLost(Chain(n), [(0, l3)], 0, n);
    } else if !ExactFor(Chain(n), [(0, l3)]) {
      var r, k, path := WalkOrder.LostIsDeep(Chain(n), [(0, l3)]);
      ChainSimple(n, k, path);
    }
  }

  // ----- requests for both ends of a chain

  /** From both ends, everything within MAX_DEPTH hops of one of them is found. */
  lemma BothEndsFar(n: nat, k: nat)
    requires WithinHops(Chain(n), {0, n}, k, MAX_DEPTH)
    ensures k <= MAX_DEPTH || n - k <= MAX_DEPTH
  {
    var r, path :| r in {0, n} && IsPath(Chain(n), r, k, path) && |path| <= MAX_DEPTH + 1;
    ChainDistance(n, r, k, path);
  }

  /** An edge of the local set, seen from below. */
  lemma EdgeAbove(n: nat, keys: set<nat>, lo: nat)
    requires AllSettled(Chain(n), keys, {0, n}) && lo < n && lo in keys && lo + 1 !in keys
    ensures lo == MAX_DEPTH
  {
    ChainPeers(n, lo);
    var r := EdgeIsCut(Chain(n), keys, {0, n}, lo, lo + 1);
    var trail :| TooDeep(Chain(n), r, lo, trail) && AllIn(trail, keys);
    assert trail[MAX_DEPTH - 1] in trail;
    if r == 0 {
      ChainSimple(n, lo, trail);
    } else {
      ChainSimpleDown(n, lo, trail);
    }
  }

  lemma EdgeBelow(n: nat, keys: set<nat>, hi: nat)
    requires AllSettled(Chain(n), keys, {0, n}) && 0 < hi <= n && hi in keys && hi - 1 !in keys
    ensures hi == n - MAX_DEPTH
  {
    ChainPeers(n, hi);
    var r := EdgeIsCut(Chain(n), keys, {0, n}, hi, hi - 1);
    var trail :| TooDeep(Chain(n), r, hi, trail) && AllIn(trail, keys);
    assert trail[MAX_DEPTH - 1] in trail;
    if r == n {
      ChainSimpleDown(n, hi, trail);
    } else {
      ChainSimple(n, hi, trail);
    }
  }

  /** A gap in the local set is between what was found from either end. */
  lemma GapBetween(n: nat, keys: set<nat>, k: nat)
    requires AllSettled(Chain(n), keys, {0, n}) && 0 in keys && n in keys && k <= n && k !in keys
    ensures MAX_DEPTH < k < n - MAX_DEPTH
  {
    var lo, hi := 0, n;
    while lo + 1 in keys
      invariant lo < k && lo in keys
      decreases k - lo
    {
      lo := lo + 1;
    }
    while hi - 1 in keys
      invariant k < hi <= n && hi in keys
      decreases hi
    {
      hi := hi - 1;
    }
    EdgeAbove(n, keys, lo);
    EdgeBelow(n, keys, hi);
  }

  lemma BothEndsMiss(n: nat, requests: seq<(nat, bool)>)
    requires Requested(requests) == {0, n} && n > 2 * MAX_DEPTH + 1
    ensures !LocalFor(Chain(n), requests)
  {
    var k := MAX_DEPTH + 1;
    ChainUp(n, k);
    if WithinHops(Chain(n), {0, n}, k, MAX_DEPTH) {
      BothEndsFar(n, k);
      assert false;
    }
    FarIsMissing(Chain(n), requests, 0, k);
  }

  lemma ChainReach(n: nat, r: nat, k: nat)
    requires Reaches(Chain(n), r, k) && r <= n
    ensures k <= n
  {
    var path :| IsPath(Chain(n), r, k, path);
    ChainDistance(n, r, k, path);
  }

  lemma BothEndsMeet(n: nat, requests: seq<(nat, bool)>)
    requires Requested(requests) == {0, n} && n <= 2 * MAX_DEPTH + 1
    ensures LocalFor(Chain(n), requests)
  {
    if !LocalFor(Chain(n), requests) {
      var r, k := SomeMissing(Chain(n), requests);
      ChainReach(n, r, k);
      var keys := DiscoverAll(Chain(n), requests).0.Keys;
      DiscoverAllSettles(Chain(n), requests, {0, n});
      GapBetween(n, keys, k);
    }
  }

  /** A later request can make up for what an earlier one has missed: from both ends
    * of a chain, requested in any order, the local set is the documented one if and
    * only if there are at most 2 * MAX_DEPTH + 2 datapaths. */
  lemma BothEndsIff(n: nat, requests: seq<(nat, bool)>)
    requires Requested(requests) == {0, n}
    ensures LocalFor(Chain(n), requests) <==> n <= 2 * MAX_DEPTH + 1
  {
    if n > 2 * MAX_DEPTH + 1 {
      BothEndsMiss(n, requests);
    } else {
      BothEndsMeet(n, requests);
    }
  }
}
