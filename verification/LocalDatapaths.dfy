/** The datapaths that matter to this chassis (controller/binding.c): the ones
  * requested, and whatever patch ports reach from them. */
module LocalDatapaths {
  import opened Util

  /** A port binding: its name, type, "peer" option and datapath. */
  datatype Port = Port(name: string, kind: string, peer: Option<string>, datapath: Option<nat>)

  datatype Local = Local(hasL3Gateway: bool, peers: seq<nat>)

  type Locals = map<nat, Local>

  const MAX_DEPTH: nat := 100

  // ----- the patch graph

  /** lport_lookup_by_name() */
  function Lookup(ports: seq<Port>, name: string): (r: Option<Port>)
    ensures r.Some? ==> r.value in ports && r.value.name == name
    ensures r.None? ==> forall p :: p in ports ==> p.name != name
  {
    if ports == [] then None
    else if ports[0].name == name then Some(ports[0])
    else
      assert ports == [ports[0]] + ports[1..];
      Lookup(ports[1..], name)
  }

  /** The datapath on the other side of 'p', a port of 'dp', if it is a patch
    * port whose peer is bound. */
  function PeerOf(ports: seq<Port>, p: Port, dp: nat): (r: seq<nat>)
    ensures |r| <= 1
  {
    if p.datapath != Some(dp) || p.kind != "patch" || p.peer.None? then []
    else
      var peer := Lookup(ports, p.peer.value);
      if peer.Some? && peer.value.datapath.Some? then [peer.value.datapath.value] else []
  }

  /** The peers of 'dp' that the first 'n' ports lead to. */
  function PeersUpTo(ports: seq<Port>, dp: nat, n: nat): (r: seq<nat>)
    requires n <= |ports|
  {
    if n == 0 then [] else PeersUpTo(ports, dp, n - 1) + PeerOf(ports, ports[n - 1], dp)
  }

  function Peers(ports: seq<Port>, dp: nat): (r: seq<nat>) {
    PeersUpTo(ports, dp, |ports|)
  }

  /** Names are unique, as the index of the Port_Binding table demands. */
  predicate UniqueNames(ports: seq<Port>) {
    forall p, q :: p in ports && q in ports && p.name == q.name ==> p == q
  }

  /** A patch port of 'dp' whose peer is a port of 'q'. */
  predicate Patched(p: Port, peer: Port, dp: nat, q: nat) {
    p.kind == "patch" && p.datapath == Some(dp) && p.peer == Some(peer.name) && peer.datapath == Some(q)
  }

  lemma {:induction false} InPeersUpTo(ports: seq<Port>, dp: nat, n: nat, q: nat)
    requires n <= |ports|
    ensures q in PeersUpTo(ports, dp, n) <==> exists i :: 0 <= i < n && q in PeerOf(ports, ports[i], dp)
  {
    if n > 0 {
      InPeersUpTo(ports, dp, n - 1, q);
    }
  }

  /** The peers of a datapath are exactly those that a pair of patch ports leads to. */
  lemma PeersIff(ports: seq<Port>, dp: nat, q: nat)
    requires UniqueNames(ports)
    ensures q in Peers(ports, dp) <==> exists p, peer :: p in ports && peer in ports && Patched(p, peer, dp, q)
  {
    InPeersUpTo(ports, dp, |ports|, q);
    if q in Peers(ports, dp) {
      var i :| 0 <= i < |ports| && q in PeerOf(ports, ports[i], dp);
      assert Patched(ports[i], Lookup(ports, ports[i].peer.value).value, dp, q);
    }
    if p, peer :| p in ports && peer in ports && Patched(p, peer, dp, q) {
      var i :| 0 <= i < |ports| && ports[i] == p;
      assert Lookup(ports, peer.name) == Some(peer);
    }
  }

  ghost predicate IsPath(ports: seq<Port>, a: nat, b: nat, path: seq<nat>) {
    && path != [] && path[0] == a && path[|path| - 1] == b
    && forall i :: 0 <= i < |path| - 1 ==> path[i + 1] in Peers(ports, path[i])
  }

  ghost predicate Reaches(ports: seq<Port>, a: nat, b: nat) {
    exists path :: IsPath(ports, a, b, path)
  }

  lemma ReachesItself(ports: seq<Port>, a: nat)
    ensures Reaches(ports, a, a)
  {
    assert IsPath(ports, a, a, [a]);
  }

  lemma ReachesThrough(ports: seq<Port>, a: nat, q: nat, b: nat)
    requires q in Peers(ports, a) && Reaches(ports, q, b)
    ensures Reaches(ports, a, b)
  {
    var path :| IsPath(ports, q, b, path);
    var longer := [a] + path;
    forall i | 0 <= i < |longer| - 1 ensures longer[i + 1] in Peers(ports, longer[i]) {
      if i > 0 {
        assert path[i - 1 + 1] in Peers(ports, path[i - 1]);
      }
    }
    assert IsPath(ports, a, b, longer);
  }

  lemma LongerPath(ports: seq<Port>, r: nat, dp: nat, q: nat, path: seq<nat>)
    requires IsPath(ports, r, dp, path) && q in Peers(ports, dp)
    ensures IsPath(ports, r, q, path + [q])
  {
    var longer := path + [q];
    forall i | 0 <= i < |longer| - 1 ensures longer[i + 1] in Peers(ports, longer[i]) {
      if i < |path| - 1 {
        assert path[i + 1] in Peers(ports, path[i]);
      }
    }
  }

  /** A set that is closed under peers contains all that its members reach. */
  lemma {:induction false} ClosedUnderPaths(ports: seq<Port>, s: set<nat>, a: nat, b: nat, path: seq<nat>)
    requires a in s && (forall d, q :: d in s && q in Peers(ports, d) ==> q in s) && IsPath(ports, a, b, path)
    ensures b in s
    decreases |path|
  {
    if |path| > 1 {
      assert path[0 + 1] in Peers(ports, path[0]);
      var rest := path[1..];
      forall i | 0 <= i < |rest| - 1 ensures rest[i + 1] in Peers(ports, rest[i]) {
        assert path[i + 1 + 1] in Peers(ports, path[i + 1]);
      }
      ClosedUnderPaths(ports, s, path[1], b, rest);
    }
  }

  // ----- discovery

  ghost predicate AllLocal(qs: seq<nat>, local: Locals) {
    forall q :: q in qs ==> q in local
  }

  /** 'ks' with their entries complete: all peers are local and recorded. */
  ghost predicate Complete(ports: seq<Port>, local: Locals, ks: set<nat>) {
    forall k :: k in ks ==>
      k in local && local[k].peers == Peers(ports, k) && AllLocal(local[k].peers, local)
  }

  /** 'after' has the entries of 'before'; the new ones can be reached from 'dp'. */
  ghost predicate Extends(ports: seq<Port>, before: Locals, after: Locals, dp: nat) {
    && (forall k :: k in before ==> k in after && after[k] == before[k])
    && (forall k :: k in after && k !in before ==> Reaches(ports, dp, k))
  }

  /** 'k' was added at the depth limit, so its peers were not followed. */
  ghost predicate Stunted(ports: seq<Port>, local: Locals, k: nat) {
    k in local && local[k].peers == [] && Peers(ports, k) != []
  }

  /** Only 'dp' may have been added with an L3 gateway. */
  ghost predicate PlainOthers(before: Locals, after: Locals, dp: nat) {
    forall k :: k in after && k !in before && k != dp ==> !after[k].hasL3Gateway
  }

  ghost predicate SomeStunted(ports: seq<Port>, before: Locals, after: Locals) {
    exists k :: k !in before && Stunted(ports, after, k)
  }

  /** What a call for 'dp' does; 'cut' tells whether the depth limit kept it from
    * following peers. */
  ghost predicate Added(ports: seq<Port>, before: Locals, after: Locals, dp: nat, l3: bool, cut: bool) {
    if dp in before then
      !cut && after == (if l3 then before[dp := before[dp].(hasL3Gateway := true)] else before)
    else
      && Extends(ports, before, after, dp)
      && dp in after && after[dp].hasL3Gateway == l3
      && PlainOthers(before, after, dp)
      && (!cut ==> Complete(ports, after, after.Keys - before.Keys))
      && (cut ==> SomeStunted(ports, before, after))
  }

  /** Part of the walk over the ports of 'dp': the first 'n' have been followed. */
  ghost predicate Following(ports: seq<Port>, before: Locals, local: Locals, dp: nat, l3: bool, cut: bool, n: nat) {
    && n <= |ports| && dp !in before
    && Extends(ports, before, local, dp)
    && dp in local && local[dp] == Local(l3, PeersUpTo(ports, dp, n))
    && PlainOthers(before, local, dp)
    && (!cut ==> AllLocal(local[dp].peers, local))
    && (!cut ==> Complete(ports, local, local.Keys - before.Keys - {dp}))
    && (cut ==> SomeStunted(ports, before[dp := local[dp]], local))
  }

  lemma PeersUpToMember(ports: seq<Port>, dp: nat, n: nat)
    requires n < |ports|
    ensures forall q :: q in PeerOf(ports, ports[n], dp) ==> q in Peers(ports, dp)
  {
    PeersPrefix(ports, dp, n + 1, |ports|);
  }

  lemma {:induction false} PeersPrefix(ports: seq<Port>, dp: nat, n: nat, m: nat)
    requires n <= m <= |ports|
    ensures forall q :: q in PeersUpTo(ports, dp, n) ==> q in PeersUpTo(ports, dp, m)
    decreases m
  {
    if n < m {
      PeersPrefix(ports, dp, n, m - 1);
    }
  }

  lemma FollowNothing(ports: seq<Port>, before: Locals, local: Locals, dp: nat, l3: bool, cut: bool, n: nat)
    requires Following(ports, before, local, dp, l3, cut, n) && n < |ports| && PeerOf(ports, ports[n], dp) == []
    ensures Following(ports, before, local, dp, l3, cut, n + 1)
  {
    assert PeersUpTo(ports, dp, n + 1) == PeersUpTo(ports, dp, n);
  }

  function Record(local: Locals, dp: nat, q: nat): (r: Locals)
    requires dp in local
  {
    local[dp := local[dp].(peers := local[dp].peers + [q])]
  }

  /** Entries that were complete stay so as more are added. */
  lemma CompleteLater(ports: seq<Port>, before: Locals, local: Locals, local1: Locals, dp: nat, q: nat, cut1: bool)
    requires dp in local && Added(ports, local, local1, q, false, cut1) && !cut1
    requires Complete(ports, local, local.Keys - before.Keys - {dp})
    ensures dp in local1 && Complete(ports, Record(local1, dp, q), local1.Keys - before.Keys - {dp})
  {
    forall k | k in local1.Keys - before.Keys - {dp}
      ensures local1[k].peers == Peers(ports, k) && AllLocal(local1[k].peers, Record(local1, dp, q)) {
      if k in local {
        assert k in local.Keys - before.Keys - {dp};
      } else {
        assert k in local1.Keys - local.Keys;
      }
    }
  }

  lemma FollowPeer(ports: seq<Port>, before: Locals, local: Locals, dp: nat, l3: bool, cut: bool, n: nat,
                   q: nat, local1: Locals, cut1: bool)
    requires Following(ports, before, local, dp, l3, cut, n) && n < |ports| && PeerOf(ports, ports[n], dp) == [q]
    requires Added(ports, local, local1, q, false, cut1)
    ensures dp in local1 && Following(ports, before, Record(local1, dp, q), dp, l3, cut || cut1, n + 1)
  {
    assert PeersUpTo(ports, dp, n + 1) == PeersUpTo(ports, dp, n) + [q];
    ExtendsThrough(ports, before, local, dp, n, q, local1, cut1);
    if !cut && !cut1 {
      CompleteLater(ports, before, local, local1, dp, q, cut1);
    } else {
      StuntedLater(ports, before, local, local1, dp, q, cut, cut1);
    }
  }

  lemma StuntedLater(ports: seq<Port>, before: Locals, local: Locals, local1: Locals, dp: nat, q: nat, cut: bool,
                     cut1: bool)
    requires dp in local && dp !in before && before.Keys <= local.Keys && Added(ports, local, local1, q, false, cut1)
    requires cut ==> SomeStunted(ports, before[dp := local[dp]], local)
    requires cut || cut1
    ensures dp in local1
    ensures var local2 := Record(local1, dp, q); SomeStunted(ports, before[dp := local2[dp]], local2)
  {
    var local2 := Record(local1, dp, q);
    if cut {
      var k :| k !in before[dp := local[dp]] && Stunted(ports, local, k);
      assert k !in before[dp := local2[dp]] && Stunted(ports, local2, k);
    } else {
      var k :| k !in local && Stunted(ports, local1, k);
      assert k !in before[dp := local2[dp]] && Stunted(ports, local2, k);
    }
  }

  lemma ExtendsThrough(ports: seq<Port>, before: Locals, local: Locals, dp: nat, n: nat, q: nat, local1: Locals,
                       cut1: bool)
    requires Extends(ports, before, local, dp) && dp in local && dp !in before
    requires n < |ports| && PeerOf(ports, ports[n], dp) == [q] && Added(ports, local, local1, q, false, cut1)
    ensures dp in local1 && Extends(ports, before, Record(local1, dp, q), dp)
  {
    PeersUpToMember(ports, dp, n);
    forall k | k in local1 && k !in before ensures Reaches(ports, dp, k) {
      if k !in local {
        ReachesThrough(ports, dp, q, k);
      }
    }
  }

  lemma FollowStart(ports: seq<Port>, before: Locals, dp: nat, l3: bool)
    requires dp !in before
    ensures Following(ports, before, before[dp := Local(l3, [])], dp, l3, false, 0)
  {
    ReachesItself(ports, dp);
  }

  lemma FollowEnd(ports: seq<Port>, before: Locals, local: Locals, dp: nat, l3: bool, cut: bool)
    requires Following(ports, before, local, dp, l3, cut, |ports|)
    ensures Added(ports, before, local, dp, l3, cut)
  {
    if !cut {
      forall k | k in local.Keys - before.Keys
        ensures local[k].peers == Peers(ports, k) && AllLocal(local[k].peers, local) {
        if k != dp {
          assert k in local.Keys - before.Keys - {dp};
        }
      }
    } else {
      var k :| k !in before[dp := local[dp]] && Stunted(ports, local, k);
      assert k !in before && Stunted(ports, local, k);
    }
  }

  ghost predicate ReachedFrom(ports: seq<Port>, keys: set<nat>, requested: set<nat>) {
    forall k :: k in keys <==> exists r :: r in requested && Reaches(ports, r, k)
  }

  ghost predicate EntriesRight(ports: seq<Port>, local: Locals, gateways: set<nat>) {
    forall k :: k in local ==> local[k].peers == Peers(ports, k) && (local[k].hasL3Gateway <==> k in gateways)
  }

  /** The local datapaths are exactly those reached from the requested ones, each
    * with its peers, and with an L3 gateway exactly where that was requested. */
  ghost predicate Exact(ports: seq<Port>, local: Locals, requested: set<nat>, gateways: set<nat>) {
    ReachedFrom(ports, local.Keys, requested) && EntriesRight(ports, local, gateways) && gateways <= requested
  }

  lemma ExactClosed(ports: seq<Port>, local: Locals, requested: set<nat>, gateways: set<nat>, k: nat, q: nat)
    requires Exact(ports, local, requested, gateways) && k in local && q in Peers(ports, k)
    ensures q in local
  {
    var r :| r in requested && Reaches(ports, r, k);
    var path :| IsPath(ports, r, k, path);
    LongerPath(ports, r, k, q, path);
  }

  lemma ReachedIsLocal(ports: seq<Port>, local: Locals, requested: set<nat>, gateways: set<nat>, dp: nat, k: nat)
    requires Exact(ports, local, requested, gateways) && dp in local && Reaches(ports, dp, k)
    ensures k in local
  {
    var path :| IsPath(ports, dp, k, path);
    forall d, q | d in local.Keys && q in Peers(ports, d) ensures q in local.Keys {
      ExactClosed(ports, local, requested, gateways, d, q);
    }
    ClosedUnderPaths(ports, local.Keys, dp, k, path);
  }

  lemma ExactRequested(ports: seq<Port>, local: Locals, requested: set<nat>, gateways: set<nat>, dp: nat)
    requires Exact(ports, local, requested, gateways) && dp in requested
    ensures dp in local
  {
    ReachesItself(ports, dp);
  }

  lemma ReachedStaysIn(ports: seq<Port>, before: Locals, after: Locals, dp: nat, l3: bool,
                       requested: set<nat>, gateways: set<nat>, r: nat, k: nat)
    requires Exact(ports, before, requested, gateways) && dp !in before && Added(ports, before, after, dp, l3, false)
    requires r in requested + {dp} && Reaches(ports, r, k)
    ensures k in after
  {
    var path :| IsPath(ports, r, k, path);
    forall d, q | d in after.Keys && q in Peers(ports, d) ensures q in after.Keys {
      if d in before {
        ExactClosed(ports, before, requested, gateways, d, q);
      } else {
        assert d in after.Keys - before.Keys;
      }
    }
    if r != dp {
      ExactRequested(ports, before, requested, gateways, r);
    }
    ClosedUnderPaths(ports, after.Keys, r, k, path);
  }

  /** One more request. */
  lemma ExactAfter(ports: seq<Port>, before: Locals, after: Locals, dp: nat, l3: bool, requested: set<nat>,
                   gateways: set<nat>)
    requires Exact(ports, before, requested, gateways) && Added(ports, before, after, dp, l3, false)
    ensures Exact(ports, after, requested + {dp}, if l3 then gateways + {dp} else gateways)
  {
    if dp in before {
      ExactOld(ports, before, dp, requested, gateways);
      if l3 {
        ExactGateway(ports, before, dp, requested + {dp}, gateways);
      }
    } else {
      ExactNew(ports, before, after, dp, l3, requested, gateways);
    }
  }

  /** A request for a datapath that is already local. */
  lemma ExactOld(ports: seq<Port>, local: Locals, dp: nat, requested: set<nat>, gateways: set<nat>)
    requires Exact(ports, local, requested, gateways) && dp in local
    ensures Exact(ports, local, requested + {dp}, gateways)
  {
    forall k ensures k in local <==> exists r :: r in requested + {dp} && Reaches(ports, r, k) {
      if k in local {
        var r :| r in requested && Reaches(ports, r, k);
        assert r in requested + {dp};
      }
      if Reaches(ports, dp, k) {
        ReachedIsLocal(ports, local, requested, gateways, dp, k);
      }
    }
  }

  lemma ExactGateway(ports: seq<Port>, local: Locals, dp: nat, requested: set<nat>, gateways: set<nat>)
    requires Exact(ports, local, requested, gateways) && dp in local && dp in requested
    ensures Exact(ports, local[dp := local[dp].(hasL3Gateway := true)], requested, gateways + {dp})
  {
    assert local[dp := local[dp].(hasL3Gateway := true)].Keys == local.Keys;
  }

  lemma ExactNew(ports: seq<Port>, before: Locals, after: Locals, dp: nat, l3: bool, requested: set<nat>,
                 gateways: set<nat>)
    requires Exact(ports, before, requested, gateways) && dp !in before && Added(ports, before, after, dp, l3, false)
    ensures Exact(ports, after, requested + {dp}, if l3 then gateways + {dp} else gateways)
  {
    forall k ensures k in after <==> exists r :: r in requested + {dp} && Reaches(ports, r, k) {
      if k in before {
        var r :| r in requested && Reaches(ports, r, k);
        assert r in requested + {dp};
      } else if k in after {
        assert dp in requested + {dp};
      } else if exists r :: r in requested + {dp} && Reaches(ports, r, k) {
        var r :| r in requested + {dp} && Reaches(ports, r, k);
        ReachedStaysIn(ports, before, after, dp, l3, requested, gateways, r, k);
        assert false;
      }
    }
    forall k | k in after
      ensures after[k].peers == Peers(ports, k)
      ensures (after[k].hasL3Gateway <==> k in if l3 then gateways + {dp} else gateways) {
      if k !in before {
        assert k in after.Keys - before.Keys;
        if k in gateways {
          ExactRequested(ports, before, requested, gateways, k);
        }
      }
    }
  }

  lemma AtLimit(ports: seq<Port>, before: Locals, dp: nat, l3: bool)
    requires dp !in before
    ensures Added(ports, before, before[dp := Local(l3, [])], dp, l3, Peers(ports, dp) != [])
  {
    var after := before[dp := Local(l3, [])];
    ReachesItself(ports, dp);
    if Peers(ports, dp) != [] {
      assert Stunted(ports, after, dp);
    }
  }

  // ----- the walk

  /** add_local_datapath__(), and whether the depth limit kept it from following
    * peers. */
  function Discover(ports: seq<Port>, local: Locals, dp: nat, l3: bool, depth: nat): (r: (Locals, bool))
    requires depth <= MAX_DEPTH
    ensures local.Keys + {dp} <= r.0.Keys
    decreases MAX_DEPTH - depth, |ports| + 1
  {
    if dp in local then
      (if l3 then local[dp := local[dp].(hasL3Gateway := true)] else local, false)
    else
      var start := local[dp := Local(l3, [])];
      if depth >= MAX_DEPTH then (start, Peers(ports, dp) != []) else Follow(ports, start, dp, depth, |ports|)
  }

  /** The first 'n' rounds of its loop. */
  function Follow(ports: seq<Port>, start: Locals, dp: nat, depth: nat, n: nat): (r: (Locals, bool))
    requires dp in start && depth < MAX_DEPTH && n <= |ports|
    ensures start.Keys <= r.0.Keys
    decreases MAX_DEPTH - depth, n
  {
    if n == 0 then (start, false)
    else
      var (local, cut) := Follow(ports, start, dp, depth, n - 1);
      var qs := PeerOf(ports, ports[n - 1], dp);
      if qs == [] then (local, cut)
      else
        var (local1, cut1) := Discover(ports, local, qs[0], false, depth + 1);
        (Record(local1, dp, qs[0]), cut || cut1)
  }

  lemma FollowSame(ports: seq<Port>, start: Locals, dp: nat, depth: nat, n: nat)
    requires dp in start && depth < MAX_DEPTH && 0 < n <= |ports| && PeerOf(ports, ports[n - 1], dp) == []
    ensures Follow(ports, start, dp, depth, n) == Follow(ports, start, dp, depth, n - 1)
  {
  }

  lemma FollowNext(ports: seq<Port>, start: Locals, dp: nat, depth: nat, n: nat, q: nat)
    requires dp in start && depth < MAX_DEPTH && 0 < n <= |ports| && PeerOf(ports, ports[n - 1], dp) == [q]
    ensures q in Peers(ports, dp)
    ensures var (local, cut) := Follow(ports, start, dp, depth, n - 1);
            var (local1, cut1) := Discover(ports, local, q, false, depth + 1);
            dp in local && dp in local1 && Follow(ports, start, dp, depth, n) == (Record(local1, dp, q), cut || cut1)
  {
    PeersUpToMember(ports, dp, n - 1);
  }

  /** add_local_datapath(), for each of a sequence of requests. */
  function DiscoverAll(ports: seq<Port>, requests: seq<(nat, bool)>): (r: (Locals, bool)) {
    if requests == [] then (map[], false)
    else
      var last := |requests| - 1;
      var (local, cut) := DiscoverAll(ports, requests[..last]);
      var (local1, cut1) := Discover(ports, local, requests[last].0, requests[last].1, 0);
      (local1, cut || cut1)
  }

  lemma {:induction false} DiscoverAdds(ports: seq<Port>, local: Locals, dp: nat, l3: bool, depth: nat,
                                        after: Locals, cut: bool)
    requires depth <= MAX_DEPTH && Discover(ports, local, dp, l3, depth) == (after, cut)
    ensures Added(ports, local, after, dp, l3, cut)
    decreases MAX_DEPTH - depth, |ports| + 1
  {
    if dp !in local {
      if depth >= MAX_DEPTH {
        AtLimit(ports, local, dp, l3);
      } else {
        FollowAdds(ports, local, dp, l3, depth, |ports|, after, cut);
        FollowEnd(ports, local, after, dp, l3, cut);
      }
    }
  }

  lemma {:induction false} FollowAdds(ports: seq<Port>, before: Locals, dp: nat, l3: bool, depth: nat, n: nat,
                                      local: Locals, cut: bool)
    requires dp !in before && depth < MAX_DEPTH && n <= |ports|
    requires Follow(ports, before[dp := Local(l3, [])], dp, depth, n) == (local, cut)
    ensures Following(ports, before, local, dp, l3, cut, n)
    decreases MAX_DEPTH - depth, n
  {
    if n == 0 {
      FollowStart(ports, before, dp, l3);
    } else {
      var (local0, cut0) := Follow(ports, before[dp := Local(l3, [])], dp, depth, n - 1);
      FollowAdds(ports, before, dp, l3, depth, n - 1, local0, cut0);
      var qs := PeerOf(ports, ports[n - 1], dp);
      if qs == [] {
        FollowNothing(ports, before, local0, dp, l3, cut0, n - 1);
      } else {
        FollowAddsPeer(ports, before, dp, l3, depth, n, local0, cut0, qs[0]);
      }
    }
  }

  lemma {:induction false} FollowAddsPeer(ports: seq<Port>, before: Locals, dp: nat, l3: bool, depth: nat, n: nat,
                                          local: Locals, cut: bool, q: nat)
    requires depth < MAX_DEPTH && 0 < n <= |ports| && PeerOf(ports, ports[n - 1], dp) == [q]
    requires Following(ports, before, local, dp, l3, cut, n - 1)
    ensures var (local1, cut1) := Discover(ports, local, q, false, depth + 1);
            dp in local1 && Following(ports, before, Record(local1, dp, q), dp, l3, cut || cut1, n)
    decreases MAX_DEPTH - depth, n, 0
  {
    var (local1, cut1) := Discover(ports, local, q, false, depth + 1);
    DiscoverAdds(ports, local, q, false, depth + 1, local1, cut1);
    FollowPeer(ports, before, local, dp, l3, cut, n - 1, q, local1, cut1);
  }

  // ----- requests

  ghost function Requested(requests: seq<(nat, bool)>): (r: set<nat>)
    ensures forall d :: d in r <==> (d, false) in requests || (d, true) in requests
  {
    if requests == [] then {}
    else
      assert requests == requests[..|requests| - 1] + [requests[|requests| - 1]];
      var (d, l3) := requests[|requests| - 1];
      Requested(requests[..|requests| - 1]) + {d}
  }

  ghost function Gateways(requests: seq<(nat, bool)>): (r: set<nat>)
    ensures forall d :: d in r <==> (d, true) in requests
  {
    if requests == [] then {}
    else
      assert requests == requests[..|requests| - 1] + [requests[|requests| - 1]];
      var (d, l3) := requests[|requests| - 1];
      Gateways(requests[..|requests| - 1]) + if l3 then {d} else {}
  }

  lemma RequestMore(requests: seq<(nat, bool)>, dp: nat, l3: bool)
    ensures Requested(requests + [(dp, l3)]) == Requested(requests) + {dp}
    ensures Gateways(requests + [(dp, l3)]) == if l3 then Gateways(requests) + {dp} else Gateways(requests)
  {
    assert (requests + [(dp, l3)])[..|requests|] == requests;
  }

  /** After some requests: exact, or cut off by the depth limit. */
  ghost predicate After(ports: seq<Port>, local: Locals, requests: seq<(nat, bool)>, cut: bool) {
    if cut then exists k :: Stunted(ports, local, k) else Exact(ports, local, Requested(requests), Gateways(requests))
  }

  lemma AfterMore(ports: seq<Port>, before: Locals, after: Locals, requests: seq<(nat, bool)>, cut: bool,
                  dp: nat, l3: bool, cut1: bool)
    requires After(ports, before, requests, cut) && Added(ports, before, after, dp, l3, cut1)
    ensures After(ports, after, requests + [(dp, l3)], cut || cut1)
  {
    if cut {
      var k :| Stunted(ports, before, k);
      assert Stunted(ports, after, k);
    } else if !cut1 {
      ExactAfter(ports, before, after, dp, l3, Requested(requests), Gateways(requests));
      RequestMore(requests, dp, l3);
    }
  }

  lemma AfterAll(ports: seq<Port>, local: Locals, requests: seq<(nat, bool)>, cut: bool)
    requires After(ports, local, requests, cut)
    ensures !cut <==> Exact(ports, local, Requested(requests), Gateways(requests))
  {
    if cut {
      var k :| Stunted(ports, local, k);
    }
  }

  lemma DiscoverAllMore(ports: seq<Port>, requests: seq<(nat, bool)>, last: nat)
    requires |requests| == last + 1
    ensures var (local, cut) := DiscoverAll(ports, requests[..last]);
            var (local1, cut1) := Discover(ports, local, requests[last].0, requests[last].1, 0);
            DiscoverAll(ports, requests) == (local1, cut || cut1)
    ensures requests[..last] + [requests[last]] == requests
  {
  }

  lemma {:induction false} DiscoverAllAfter(ports: seq<Port>, requests: seq<(nat, bool)>, local: Locals, cut: bool)
    requires DiscoverAll(ports, requests) == (local, cut)
    ensures After(ports, local, requests, cut)
  {
    if requests != [] {
      var last := |requests| - 1;
      var (dp, l3) := requests[last];
      var (local0, cut0) := DiscoverAll(ports, requests[..last]);
      DiscoverAllAfter(ports, requests[..last], local0, cut0);
      var (local1, cut1) := Discover(ports, local0, dp, l3, 0);
      DiscoverAdds(ports, local0, dp, l3, 0, local1, cut1);
      AfterMore(ports, local0, local1, requests[..last], cut0, dp, l3, cut1);
      DiscoverAllMore(ports, requests, last);
    }
  }

  /** The local datapaths are the ones they are documented to be: those reached
    * from the requested ones. */
  ghost predicate LocalFor(ports: seq<Port>, requests: seq<(nat, bool)>) {
    ReachedFrom(ports, DiscoverAll(ports, requests).0.Keys, Requested(requests))
  }

  /** And each has all its peers recorded, and the right gateway flag. */
  ghost predicate ExactFor(ports: seq<Port>, requests: seq<(nat, bool)>) {
    Exact(ports, DiscoverAll(ports, requests).0, Requested(requests), Gateways(requests))
  }

  /** The outcome is exact if and only if the walk was not cut off. */
  lemma ExactIff(ports: seq<Port>, requests: seq<(nat, bool)>)
    ensures ExactFor(ports, requests) <==> !DiscoverAll(ports, requests).1
  {
    var (local, cut) := DiscoverAll(ports, requests);
    DiscoverAllAfter(ports, requests, local, cut);
    AfterAll(ports, local, requests, cut);
  }

  /** No later request makes up for peers that were not recorded. */
  lemma {:induction false} NeverRepaired(ports: seq<Port>, requests: seq<(nat, bool)>, n: nat)
    requires n <= |requests| && !ExactFor(ports, requests[..n])
    ensures !ExactFor(ports, requests)
  {
    if n == |requests| {
      assert requests[..n] == requests;
    } else {
      var last := |requests| - 1;
      assert requests[..last][..n] == requests[..n];
      NeverRepaired(ports, requests[..last], n);
      DiscoverAllMore(ports, requests, last);
      ExactIff(ports, requests[..last]);
      ExactIff(ports, requests);
    }
  }

  // ----- binding.c

  class Discovery {
    const ports: seq<Port>
    var local: Locals

    constructor (ports: seq<Port>)
      ensures this.ports == ports && local == map[]
    {
      this.ports := ports;
      local := map[];
    }

    /** add_local_datapath__(): adds 'dp' and what can be reached from it. */
    method AddFrom(dp: nat, l3: bool, depth: nat)
      requires depth <= MAX_DEPTH
      modifies this
      ensures local == Discover(ports, old(local), dp, l3, depth).0
      decreases MAX_DEPTH - depth, 1
    {
      if dp in local {
        if l3 {
          local := local[dp := local[dp].(hasL3Gateway := true)];
        }
        return;
      }
      local := local[dp := Local(l3, [])];
      if depth >= MAX_DEPTH {
        return;
      }
      ghost var start := local;
      for n := 0 to |ports|
        invariant local == Follow(ports, start, dp, depth, n).0
      {
        FollowPort(n, dp, depth, start);
      }
    }

    /** The loop's body: follows port 'n', if it leads to a peer. */
    method FollowPort(n: nat, dp: nat, depth: nat, ghost start: Locals)
      requires n < |ports| && depth < MAX_DEPTH && dp in start
      requires local == Follow(ports, start, dp, depth, n).0
      modifies this
      ensures local == Follow(ports, start, dp, depth, n + 1).0
      decreases MAX_DEPTH - depth, 0
    {
      var p := ports[n];
      if p.datapath == Some(dp) && p.kind == "patch" && p.peer.Some? {
        var peer := Lookup(ports, p.peer.value);
        if peer.Some? && peer.value.datapath.Some? {
          var q := peer.value.datapath.value;
          AddFrom(q, false, depth + 1);
          local := Record(local, dp, q);
        }
      }
    }

    /** add_local_datapath(), for each of a sequence of requests. */
    method AddAll(requests: seq<(nat, bool)>)
      requires local == map[]
      modifies this
      ensures local == DiscoverAll(ports, requests).0
      ensures Exact(ports, local, Requested(requests), Gateways(requests)) <==> !DiscoverAll(ports, requests).1
    {
      for i := 0 to |requests|
        invariant local == DiscoverAll(ports, requests[..i]).0
      {
        var (dp, l3) := requests[i];
        assert requests[..i + 1][..i] == requests[..i];
        AddFrom(dp, l3, 0);
      }
      assert requests[..|requests|] == requests;
      ExactIff(ports, requests);
    }
  }
}
