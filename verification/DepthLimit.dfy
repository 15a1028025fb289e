/** What the depth limit of the walk over patch ports (controller/binding.c) does
  * to the local datapaths and to the peers recorded with them. */
module DepthLimit {
  import opened LocalDatapaths

  ghost predicate NoRepeats(path: seq<nat>) {
    forall i, j :: 0 <= i < j < |path| ==> path[i] != path[j]
  }

  ghost predicate SimplePath(ports: seq<Port>, r: nat, k: nat, path: seq<nat>) {
    IsPath(ports, r, k, path) && NoRepeats(path)
  }

  ghost predicate WithinHops(ports: seq<Port>, requested: set<nat>, k: nat, hops: nat) {
    exists r, path :: r in requested && IsPath(ports, r, k, path) && |path| <= hops + 1
  }

  // ----- how far the walk goes

  /** Every local datapath is at most MAX_DEPTH hops from a requested one, and
    * fewer if it has peers recorded. */
  ghost predicate Bounded(ports: seq<Port>, local: Locals, requested: set<nat>) {
    forall k :: k in local ==>
      && WithinHops(ports, requested, k, MAX_DEPTH)
      && (local[k].peers != [] ==> WithinHops(ports, requested, k, MAX_DEPTH - 1))
  }

  lemma BoundedStart(ports: seq<Port>, local: Locals, r: nat, dp: nat, l3: bool, path: seq<nat>, requested: set<nat>)
    requires r in requested && IsPath(ports, r, dp, path) && |path| <= MAX_DEPTH + 1
    requires Bounded(ports, local, requested)
    ensures Bounded(ports, local[dp := Local(l3, [])], requested)
  {
    assert WithinHops(ports, requested, dp, MAX_DEPTH);
  }

  lemma BoundedRecord(ports: seq<Port>, local: Locals, r: nat, dp: nat, q: nat, path: seq<nat>, requested: set<nat>)
    requires dp in local && Bounded(ports, local, requested)
    requires r in requested && IsPath(ports, r, dp, path) && |path| <= MAX_DEPTH
    ensures Bounded(ports, Record(local, dp, q), requested)
  {
    assert WithinHops(ports, requested, dp, MAX_DEPTH - 1);
  }

  lemma {:induction false} DiscoverBounded(ports: seq<Port>, local: Locals, r: nat, dp: nat, l3: bool, depth: nat,
                                           path: seq<nat>, requested: set<nat>)
    requires depth <= MAX_DEPTH && r in requested && IsPath(ports, r, dp, path) && |path| == depth + 1
    requires Bounded(ports, local, requested)
    ensures Bounded(ports, Discover(ports, local, dp, l3, depth).0, requested)
    decreases MAX_DEPTH - depth, |ports| + 1
  {
    if dp !in local {
      BoundedStart(ports, local, r, dp, l3, path, requested);
      if depth < MAX_DEPTH {
        FollowBounded(ports, local[dp := Local(l3, [])], r, dp, depth, path, requested, |ports|);
      }
    }
  }

  lemma {:induction false} FollowBounded(ports: seq<Port>, start: Locals, r: nat, dp: nat, depth: nat, path: seq<nat>,
                                         requested: set<nat>, n: nat)
    requires dp in start && depth < MAX_DEPTH && n <= |ports|
    requires r in requested && IsPath(ports, r, dp, path) && |path| == depth + 1
    requires Bounded(ports, start, requested)
    ensures Bounded(ports, Follow(ports, start, dp, depth, n).0, requested)
    decreases MAX_DEPTH - depth, n
  {
    if n > 0 {
      FollowBounded(ports, start, r, dp, depth, path, requested, n - 1);
      var local := Follow(ports, start, dp, depth, n - 1).0;
      var qs := PeerOf(ports, ports[n - 1], dp);
      if qs == [] {
        FollowSame(ports, start, dp, depth, n);
      } else {
        FollowNext(ports, start, dp, depth, n, qs[0]);
        LongerPath(ports, r, dp, qs[0], path);
        DiscoverBounded(ports, local, r, qs[0], false, depth + 1, path + [qs[0]], requested);
        BoundedRecord(ports, Discover(ports, local, qs[0], false, depth + 1).0, r, dp, qs[0], path, requested);
      }
    }
  }

  lemma {:induction false} DiscoverAllBounded(ports: seq<Port>, requests: seq<(nat, bool)>, requested: set<nat>)
    requires Requested(requests) <= requested
    ensures Bounded(ports, DiscoverAll(ports, requests).0, requested)
  {
    if requests != [] {
      var last := |requests| - 1;
      var dp := requests[last].0;
      DiscoverAllMore(ports, requests, last);
      RequestMore(requests[..last], dp, requests[last].1);
      DiscoverAllBounded(ports, requests[..last], requested);
      var local := DiscoverAll(ports, requests[..last]).0;
      DiscoverBounded(ports, local, dp, dp, requests[last].1, 0, [dp], requested);
    }
  }

  /** Whatever is local is at most MAX_DEPTH hops from a requested datapath, so that
    * a datapath farther away from all of them is missing. */
  lemma LocalIsWithin(ports: seq<Port>, requests: seq<(nat, bool)>, k: nat)
    ensures k in DiscoverAll(ports, requests).0 ==> WithinHops(ports, Requested(requests), k, MAX_DEPTH)
  {
    DiscoverAllBounded(ports, requests, Requested(requests));
  }

  /** If it can be reached, the local set is then not the documented one. */
  lemma FarIsMissing(ports: seq<Port>, requests: seq<(nat, bool)>, r: nat, k: nat)
    requires r in Requested(requests) && Reaches(ports, r, k)
    requires !WithinHops(ports, Requested(requests), k, MAX_DEPTH)
    ensures k !in DiscoverAll(ports, requests).0 && !LocalFor(ports, requests)
  {
    LocalIsWithin(ports, requests, k);
  }

  /** One hop less, and its peers are not recorded. */
  lemma FarIsLost(ports: seq<Port>, requests: seq<(nat, bool)>, r: nat, k: nat)
    requires r in Requested(requests) && Reaches(ports, r, k) && Peers(ports, k) != []
    requires !WithinHops(ports, Requested(requests), k, MAX_DEPTH - 1)
    ensures var local := DiscoverAll(ports, requests).0; k in local ==> local[k].peers == []
    ensures !ExactFor(ports, requests)
  {
    DiscoverAllBounded(ports, requests, Requested(requests));
  }

  // ----- what is cut off

  /** A path from 'r', without repetition, to a datapath that is too deep for its
    * peers to be followed. */
  ghost predicate TooDeep(ports: seq<Port>, r: nat, k: nat, path: seq<nat>) {
    SimplePath(ports, r, k, path) && |path| == MAX_DEPTH + 1
  }

  /** 'trail' leads from 'r' to 'dp', and all before 'dp' is local. */
  ghost predicate IsTrail(ports: seq<Port>, keys: set<nat>, r: nat, dp: nat, depth: nat, trail: seq<nat>) {
    && SimplePath(ports, r, dp, trail) && |trail| == depth + 1
    && forall i :: 0 <= i < depth ==> trail[i] in keys
  }

  lemma LongerTrail(ports: seq<Port>, before: set<nat>, keys: set<nat>, r: nat, dp: nat, q: nat, depth: nat,
                    trail: seq<nat>)
    requires IsTrail(ports, before, r, dp, depth, trail) && before + {dp} <= keys
    requires q in Peers(ports, dp) && q !in keys
    ensures IsTrail(ports, keys, r, q, depth + 1, trail + [q])
  {
    LongerPath(ports, r, dp, q, trail);
    forall i | 0 <= i < depth + 1 ensures (trail + [q])[i] in keys {
      assert i < depth ==> trail[i] in before;
    }
  }

  ghost predicate AllIn(qs: seq<nat>, keys: set<nat>) {
    forall q :: q in qs ==> q in keys
  }

  /** All peers of 'k' are local, or it was too deep. */
  ghost predicate Settled(ports: seq<Port>, keys: set<nat>, r: nat, k: nat) {
    AllIn(Peers(ports, k), keys) || CutAt(ports, keys, r, k)
  }

  ghost predicate CutAt(ports: seq<Port>, keys: set<nat>, r: nat, k: nat) {
    exists trail :: TooDeep(ports, r, k, trail) && AllIn(trail, keys)
  }

  /** What was added to 'before' is settled. */
  ghost predicate NewSettled(ports: seq<Port>, before: set<nat>, keys: set<nat>, r: nat) {
    forall k :: k in keys && k !in before ==> Settled(ports, keys, r, k)
  }

  lemma SettledLater(ports: seq<Port>, keys: set<nat>, keys1: set<nat>, r: nat, k: nat)
    requires Settled(ports, keys, r, k) && keys <= keys1
    ensures Settled(ports, keys1, r, k)
  {
    if CutAt(ports, keys, r, k) {
      var trail :| TooDeep(ports, r, k, trail) && AllIn(trail, keys);
      assert AllIn(trail, keys1);
    }
  }

  lemma NewSettledMore(ports: seq<Port>, before: set<nat>, keys: set<nat>, keys1: set<nat>, r: nat)
    requires NewSettled(ports, before, keys, r) && NewSettled(ports, keys, keys1, r) && keys <= keys1
    ensures NewSettled(ports, before, keys1, r)
  {
    forall k | k in keys1 && k !in before ensures Settled(ports, keys1, r, k) {
      if k in keys {
        SettledLater(ports, keys, keys1, r, k);
      }
    }
  }

  lemma {:induction false} DiscoverSettles(ports: seq<Port>, local: Locals, r: nat, dp: nat, l3: bool, depth: nat,
                                           trail: seq<nat>)
    requires depth <= MAX_DEPTH && IsTrail(ports, local.Keys, r, dp, depth, trail)
    ensures NewSettled(ports, local.Keys, Discover(ports, local, dp, l3, depth).0.Keys, r)
    decreases MAX_DEPTH - depth, |ports| + 1
  {
    if dp !in local {
      var start := local[dp := Local(l3, [])];
      if depth < MAX_DEPTH {
        FollowSettles(ports, local, r, dp, l3, depth, trail, |ports|, Follow(ports, start, dp, depth, |ports|).0);
      } else {
        assert AllIn(trail, start.Keys);
        assert CutAt(ports, start.Keys, r, dp);
      }
    }
  }

  /** After some of the ports of 'dp': what was added since is settled, and the
    * peers that those ports lead to are local. */
  ghost predicate PartlySettled(ports: seq<Port>, start: set<nat>, keys: set<nat>, r: nat, dp: nat, n: nat)
    requires n <= |ports|
  {
    NewSettled(ports, start, keys, r) && AllIn(PeersUpTo(ports, dp, n), keys)
  }

  lemma PartlyMore(ports: seq<Port>, start: set<nat>, keys: set<nat>, keys1: set<nat>, r: nat, dp: nat, n: nat, q: nat)
    requires 0 < n <= |ports| && PeerOf(ports, ports[n - 1], dp) == [q] && q in keys1 && keys <= keys1
    requires PartlySettled(ports, start, keys, r, dp, n - 1) && NewSettled(ports, keys, keys1, r)
    ensures PartlySettled(ports, start, keys1, r, dp, n)
  {
    NewSettledMore(ports, start, keys, keys1, r);
  }

  lemma {:induction false} FollowSettles(ports: seq<Port>, before: Locals, r: nat, dp: nat, l3: bool, depth: nat,
                                         trail: seq<nat>, n: nat, local: Locals)
    requires depth < MAX_DEPTH && IsTrail(ports, before.Keys, r, dp, depth, trail) && n <= |ports|
    requires Follow(ports, before[dp := Local(l3, [])], dp, depth, n).0 == local
    ensures PartlySettled(ports, before.Keys + {dp}, local.Keys, r, dp, n)
    decreases MAX_DEPTH - depth, n
  {
    if n > 0 {
      var start := before[dp := Local(l3, [])];
      var local0 := Follow(ports, start, dp, depth, n - 1).0;
      FollowSettles(ports, before, r, dp, l3, depth, trail, n - 1, local0);
      var qs := PeerOf(ports, ports[n - 1], dp);
      if qs == [] {
        FollowSame(ports, start, dp, depth, n);
        assert PeersUpTo(ports, dp, n) == PeersUpTo(ports, dp, n - 1);
      } else {
        FollowNext(ports, start, dp, depth, n, qs[0]);
        PeerSettles(ports, before, local0, r, dp, depth, trail, qs[0]);
        var local1 := Discover(ports, local0, qs[0], false, depth + 1).0;
        assert local.Keys == local1.Keys;
        PartlyMore(ports, before.Keys + {dp}, local0.Keys, local1.Keys, r, dp, n, qs[0]);
      }
    }
  }

  lemma {:induction false} PeerSettles(ports: seq<Port>, before: Locals, local: Locals, r: nat, dp: nat, depth: nat,
                                       trail: seq<nat>, q: nat)
    requires depth < MAX_DEPTH && IsTrail(ports, before.Keys, r, dp, depth, trail)
    requires before.Keys + {dp} <= local.Keys && q in Peers(ports, dp)
    ensures NewSettled(ports, local.Keys, Discover(ports, local, q, false, depth + 1).0.Keys, r)
    decreases MAX_DEPTH - depth, 0
  {
    if q !in local {
      LongerTrail(ports, before.Keys, local.Keys, r, dp, q, depth, trail);
      DiscoverSettles(ports, local, r, q, false, depth + 1, trail + [q]);
    }
  }

  /** Every local datapath is settled, from some request. */
  ghost predicate AllSettled(ports: seq<Port>, keys: set<nat>, requested: set<nat>) {
    forall k :: k in keys ==> exists r :: r in requested && Settled(ports, keys, r, k)
  }

  lemma {:induction false} DiscoverAllSettles(ports: seq<Port>, requests: seq<(nat, bool)>, requested: set<nat>)
    requires Requested(requests) <= requested
    ensures AllSettled(ports, DiscoverAll(ports, requests).0.Keys, requested)
    ensures Requested(requests) <= DiscoverAll(ports, requests).0.Keys
  {
    if requests != [] {
      var last := |requests| - 1;
      var dp := requests[last].0;
      DiscoverAllMore(ports, requests, last);
      RequestMore(requests[..last], dp, requests[last].1);
      DiscoverAllSettles(ports, requests[..last], requested);
      var local := DiscoverAll(ports, requests[..last]).0;
      DiscoverSettles(ports, local, dp, dp, requests[last].1, 0, [dp]);
      var keys := DiscoverAll(ports, requests).0.Keys;
      forall k | k in keys ensures exists r :: r in requested && Settled(ports, keys, r, k) {
        if k in local {
          var r :| r in requested && Settled(ports, local.Keys, r, k);
          SettledLater(ports, local.Keys, keys, r, k);
        } else {
          assert Settled(ports, keys, dp, k);
        }
      }
    }
  }

  lemma LocalIsReached(ports: seq<Port>, requests: seq<(nat, bool)>, k: nat)
    requires k in DiscoverAll(ports, requests).0
    ensures exists r :: r in Requested(requests) && Reaches(ports, r, k)
  {
    LocalIsWithin(ports, requests, k);
    var r, path :| r in Requested(requests) && IsPath(ports, r, k, path) && |path| <= MAX_DEPTH + 1;
    assert Reaches(ports, r, k);
  }

  lemma SomeMissing(ports: seq<Port>, requests: seq<(nat, bool)>) returns (r: nat, k: nat)
    requires !LocalFor(ports, requests)
    ensures r in Requested(requests) && Reaches(ports, r, k) && k !in DiscoverAll(ports, requests).0
  {
    var keys := DiscoverAll(ports, requests).0.Keys;
    forall k | k in keys ensures exists r :: r in Requested(requests) && Reaches(ports, r, k) {
      LocalIsReached(ports, requests, k);
    }
    r, k :| r in Requested(requests) && Reaches(ports, r, k) && k !in keys;
  }

  /** Where a path leaves a set. */
  lemma LeavesAt(ports: seq<Port>, keys: set<nat>, a: nat, b: nat) returns (d: nat, q: nat)
    requires Reaches(ports, a, b) && a in keys && b !in keys
    ensures d in keys && q in Peers(ports, d) && q !in keys
  {
    var path :| IsPath(ports, a, b, path);
    var i := 0;
    while path[i + 1] in keys
      invariant 0 <= i < |path| - 1 && path[i] in keys
      decreases |path| - i
    {
      i := i + 1;
    }
    d, q := path[i], path[i + 1];
  }

  lemma EdgeIsCut(ports: seq<Port>, keys: set<nat>, requested: set<nat>, d: nat, q: nat) returns (r: nat)
    requires AllSettled(ports, keys, requested) && d in keys && q in Peers(ports, d) && q !in keys
    ensures r in requested && CutAt(ports, keys, r, d)
  {
    r :| r in requested && Settled(ports, keys, r, d);
  }

  /** If the local set is not the documented one, some datapath at its edge was too
    * deep, and a peer of it is missing. */
  lemma MissingAtEdge(ports: seq<Port>, requests: seq<(nat, bool)>, keys: set<nat>) returns (r: nat, d: nat, q: nat)
    requires !LocalFor(ports, requests) && keys == DiscoverAll(ports, requests).0.Keys
    ensures r in Requested(requests) && d in keys && q in Peers(ports, d) && q !in keys && CutAt(ports, keys, r, d)
  {
    var r0, missing := SomeMissing(ports, requests);
    DiscoverAllSettles(ports, requests, Requested(requests));
    d, q := LeavesAt(ports, keys, r0, missing);
    r := EdgeIsCut(ports, keys, Requested(requests), d, q);
  }

  /** If the local set is not the documented one, then a path of more than MAX_DEPTH
    * hops, without repetition, leads from a requested datapath to a missing one. */
  lemma MissingIsDeep(ports: seq<Port>, requests: seq<(nat, bool)>) returns (r: nat, k: nat, path: seq<nat>)
    requires !LocalFor(ports, requests)
    ensures r in Requested(requests) && k !in DiscoverAll(ports, requests).0
    ensures SimplePath(ports, r, k, path) && |path| == MAX_DEPTH + 2
  {
    var keys := DiscoverAll(ports, requests).0.Keys;
    var d: nat;
    r, d, k := MissingAtEdge(ports, requests, keys);
    var trail :| TooDeep(ports, r, d, trail) && AllIn(trail, keys);
    LongerPath(ports, r, d, k, trail);
    path := trail + [k];
  }
}
