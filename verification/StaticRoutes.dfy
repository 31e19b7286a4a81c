/**
 * Static routes of a node (clabgen/s88/CM/linux_routes.py) and what executing them
 * leaves in the main routing table.  `listing` lists the destinations of a table; the
 * source sorts their text.
 */
module StaticRoutes {
  import opened Common
  import opened Sorting
  import opened Addressing
  import opened NodeModel
  import opened RouteVia
  import PolicyGroups

  datatype NextHop = NextHop(via: Ip, eth: Name)

  /** `route replace dst via via dev eth onlink`, or `route replace dst dev eth`. */
  datatype RouteCommand =
    | ViaRoute(family: Family, dst: Cidr, hop: NextHop) | DevRoute(family: Family, dst: Cidr, eth: Name)

  type Groups = map<Cidr, seq<NextHop>>

  // ------------------------------------------------------------------- collection

  /** The destination and hop a route brings into the main table, if it is rendered at all. */
  function Contribution(node: Node, ethMap: PolicyGroups.EthMap, n: Name, route: Route, f: Family)
      : Option<(Cidr, NextHop)>
    requires ValidNode(node) && n in node.interfaces
  {
    var via := EffectiveVia(node, node.interfaces[n], route, f);
    if n !in ethMap || route.policyOnly || route.dst.None? || via.None? || route.dst.value == DefaultOf(f) then None
    else if route.proto == ProtoConnected then None
    else
      var dst := NormalizePrefix(route.dst.value);
      if dst in ConnectedPrefixes(node, f) || In(Via(route, f), LocalIps(node, f)) then None
      else Some((dst, NextHop(via.value, ethMap[n])))
  }

  /** The distinct next hops that some route brings for `d`. */
  function HopsFor(node: Node, ethMap: PolicyGroups.EthMap, f: Family, d: Cidr): set<NextHop>
    requires ValidNode(node)
  {
    set n, r | n in node.interfaces && r in Routes(node.interfaces[n], f)
               && Contribution(node, ethMap, n, r, f).Some? && Contribution(node, ethMap, n, r, f).value.0 == d
      :: Contribution(node, ethMap, n, r, f).value.1
  }

  /** Route `j` of interface `names[k]` brings hop `h` for `d`. */
  ghost predicate Brings(node: Node, ethMap: PolicyGroups.EthMap, f: Family, names: seq<Name>, k: nat, j: nat,
                         d: Cidr, h: NextHop)
    requires ValidNode(node) && forall n | n in names :: n in node.interfaces
  {
    && k < |names| && j < |Routes(node.interfaces[names[k]], f)|
    && Contribution(node, ethMap, names[k], Routes(node.interfaces[names[k]], f)[j], f) == Some((d, h))
  }

  /** A contribution among the first `count` routes of the interfaces before `i`, or of interface `i`. */
  ghost predicate Seen(node: Node, ethMap: PolicyGroups.EthMap, f: Family, names: seq<Name>, i: nat, count: nat,
                       d: Cidr, h: NextHop)
    requires ValidNode(node) && forall n | n in names :: n in node.interfaces
    requires i <= |names| && (i < |names| ==> count <= |Routes(node.interfaces[names[i]], f)|)
  {
    exists k: nat, j: nat :: Brings(node, ethMap, f, names, k, j, d, h) && (k < i || (k == i && j < count))
  }

  predicate Holds(groups: Groups, d: Cidr, h: NextHop) {
    d in groups && h in groups[d]
  }

  /** No group is empty or repeats a hop. */
  predicate Proper(groups: Groups) {
    forall d | d in groups :: groups[d] != [] && NoRepeat(groups[d])
  }

  /** The groups hold exactly the hops seen so far, each once, and no group is empty. */
  ghost predicate Collected(node: Node, ethMap: PolicyGroups.EthMap, f: Family, names: seq<Name>, i: nat, count: nat,
                            groups: Groups)
    requires ValidNode(node) && forall n | n in names :: n in node.interfaces
    requires i <= |names| && (i < |names| ==> count <= |Routes(node.interfaces[names[i]], f)|)
  {
    && Proper(groups)
    && (forall d, h :: Holds(groups, d, h) <==> Seen(node, ethMap, f, names, i, count, d, h))
  }

  predicate NoRepeat(hops: seq<NextHop>) {
    forall i, j | 0 <= i < j < |hops| :: hops[i] != hops[j]
  }

  /** `_add_route`. */
  function AddRoute(groups: Groups, d: Cidr, h: NextHop): Groups {
    var hops := if d in groups then groups[d] else [];
    groups[d := if h in hops then hops else hops + [h]]
  }

  lemma AddRouteHolds(groups: Groups, d0: Cidr, h0: NextHop)
    requires Proper(groups)
    ensures Proper(AddRoute(groups, d0, h0))
    ensures forall d, h :: Holds(AddRoute(groups, d0, h0), d, h) <==> Holds(groups, d, h) || (d == d0 && h == h0)
  {
  }

  lemma SeenStep(node: Node, ethMap: PolicyGroups.EthMap, f: Family, names: seq<Name>, i: nat, j: nat, d: Cidr,
                 h: NextHop)
    requires ValidNode(node) && forall n | n in names :: n in node.interfaces
    requires i < |names| && j < |Routes(node.interfaces[names[i]], f)|
    ensures Seen(node, ethMap, f, names, i, j + 1, d, h) <==>
              Seen(node, ethMap, f, names, i, j, d, h)
              || Brings(node, ethMap, f, names, i, j, d, h)
  {
    hide Contribution, ValidNode;
  }

  lemma CollectedStep(node: Node, ethMap: PolicyGroups.EthMap, f: Family, names: seq<Name>, i: nat, j: nat,
                      groups: Groups)
    requires ValidNode(node) && forall n | n in names :: n in node.interfaces
    requires i < |names| && j < |Routes(node.interfaces[names[i]], f)|
    requires Collected(node, ethMap, f, names, i, j, groups)
    ensures var c := Contribution(node, ethMap, names[i], Routes(node.interfaces[names[i]], f)[j], f);
            Collected(node, ethMap, f, names, i, j + 1,
                      if c.None? then groups else AddRoute(groups, c.value.0, c.value.1))
  {
    hide Contribution, ValidNode, Seen, Holds, Proper, AddRoute;
    var c := Contribution(node, ethMap, names[i], Routes(node.interfaces[names[i]], f)[j], f);
    if c.Some? {
      AddRouteHolds(groups, c.value.0, c.value.1);
    }
    var after := if c.None? then groups else AddRoute(groups, c.value.0, c.value.1);
    forall d, h
      ensures Holds(after, d, h) <==> Seen(node, ethMap, f, names, i, j + 1, d, h)
    {
      SeenStep(node, ethMap, f, names, i, j, d, h);
      assert Holds(groups, d, h) <==> Seen(node, ethMap, f, names, i, j, d, h);
      assert Brings(node, ethMap, f, names, i, j, d, h) <==> c.Some? && c.value.0 == d && c.value.1 == h;
    }
  }

  lemma CollectedNext(node: Node, ethMap: PolicyGroups.EthMap, f: Family, names: seq<Name>, i: nat, groups: Groups)
    requires ValidNode(node) && forall n | n in names :: n in node.interfaces
    requires i < |names|
    requires Collected(node, ethMap, f, names, i, |Routes(node.interfaces[names[i]], f)|, groups)
    ensures Collected(node, ethMap, f, names, i + 1, 0, groups)
  {
    hide Contribution, ValidNode;
    forall d, h
      ensures Seen(node, ethMap, f, names, i, |Routes(node.interfaces[names[i]], f)|, d, h)
         <==> Seen(node, ethMap, f, names, i + 1, 0, d, h)
    {
    }
  }

  lemma AllCollected(node: Node, ethMap: PolicyGroups.EthMap, f: Family, names: seq<Name>, groups: Groups)
    requires ValidNode(node) && (forall n :: n in names <==> n in node.interfaces)
    requires Collected(node, ethMap, f, names, |names|, 0, groups)
    ensures forall d, h :: Holds(groups, d, h) <==> h in HopsFor(node, ethMap, f, d)
    ensures Proper(groups)
  {
    hide Contribution, ValidNode;
    forall d, h
      ensures Seen(node, ethMap, f, names, |names|, 0, d, h) <==> h in HopsFor(node, ethMap, f, d)
    {
      if k: nat, j: nat :| Brings(node, ethMap, f, names, k, j, d, h) && k < |names| {
        assert Routes(node.interfaces[names[k]], f)[j] in Routes(node.interfaces[names[k]], f);
      }
      if h in HopsFor(node, ethMap, f, d) {
        var n, r :| n in node.interfaces && r in Routes(node.interfaces[n], f)
                    && Contribution(node, ethMap, n, r, f) == Some((d, h));
        var k :| 0 <= k < |names| && names[k] == n;
        var j :| 0 <= j < |Routes(node.interfaces[n], f)| && Routes(node.interfaces[n], f)[j] == r;
        assert Brings(node, ethMap, f, names, k, j, d, h);
      }
    }
  }

  // ---------------------------------------------------------------- rendering

  /** The host route to the next hop that an overlay interface also needs. */
  function HostRoute(iface: Iface, f: Family, h: NextHop): Option<RouteCommand> {
    if iface.kind == Overlay && h.via.family == f then Some(DevRoute(f, Cidr(h.via, Width(f)), h.eth)) else None
  }

  /** Some route of overlay interface `n` renders this host route. */
  ghost predicate HostAsked(node: Node, ethMap: PolicyGroups.EthMap, f: Family, n: Name, c: RouteCommand)
    requires ValidNode(node)
  {
    n in node.interfaces && HostOfSome(node, ethMap, f, n, Routes(node.interfaces[n], f), c)
  }

  ghost predicate HostOfSome(node: Node, ethMap: PolicyGroups.EthMap, f: Family, n: Name, routes: seq<Route>,
                             c: RouteCommand)
    requires ValidNode(node) && n in node.interfaces
  {
    exists r :: r in routes && HostOfRoute(node, ethMap, f, n, r, c)
  }

  predicate HasOverlay(node: Node) {
    exists n | n in node.interfaces :: node.interfaces[n].kind == Overlay
  }

  predicate HostOfRoute(node: Node, ethMap: PolicyGroups.EthMap, f: Family, n: Name, r: Route, c: RouteCommand)
    requires ValidNode(node) && n in node.interfaces
  {
    Contribution(node, ethMap, n, r, f).Some?
    && HostRoute(node.interfaces[n], f, Contribution(node, ethMap, n, r, f).value.1) == Some(c)
  }

  ghost predicate AskedBefore(node: Node, ethMap: PolicyGroups.EthMap, names: seq<Name>, count: nat, c: RouteCommand)
    requires ValidNode(node) && count <= |names|
  {
    exists k, f :: 0 <= k < count && HostAsked(node, ethMap, f, names[k], c)
  }

  /** Exactly the host routes that the overlay interfaces ask for. */
  ghost predicate HostRoutes(node: Node, ethMap: PolicyGroups.EthMap, cmds: seq<RouteCommand>)
    requires ValidNode(node)
  {
    forall c :: c in cmds <==> exists n, f :: HostAsked(node, ethMap, f, n, c)
  }

  lemma HostStep(node: Node, ethMap: PolicyGroups.EthMap, f: Family, n: Name, routes: seq<Route>, j: nat)
    requires ValidNode(node) && n in node.interfaces && j < |routes|
    ensures forall c :: HostOfSome(node, ethMap, f, n, routes[..j + 1], c) <==>
              HostOfSome(node, ethMap, f, n, routes[..j], c) || HostOfRoute(node, ethMap, f, n, routes[j], c)
  {
    hide HostOfRoute, ValidNode;
    assert routes[..j + 1] == routes[..j] + [routes[j]];
    assert routes[j] in routes[..j + 1];
  }

  method CollectIface(node: Node, ethMap: PolicyGroups.EthMap, f: Family, names: seq<Name>, i: nat,
                      groups0: Groups, cmds0: seq<RouteCommand>, seen0: set<RouteCommand>)
      returns (groups: Groups, cmds: seq<RouteCommand>, seen: set<RouteCommand>)
    requires ValidNode(node) && i < |names| && forall n | n in names :: n in node.interfaces
    requires Collected(node, ethMap, f, names, i, 0, groups0)
    requires forall c :: c in seen0 <==> c in cmds0
    ensures Collected(node, ethMap, f, names, i + 1, 0, groups)
    ensures forall c :: c in cmds <==> c in cmds0 || HostAsked(node, ethMap, f, names[i], c)
    ensures forall c :: c in seen <==> c in cmds
  {
    hide Contribution, Collected, ValidNode, HostRoute;
    groups, cmds, seen := groups0, cmds0, seen0;
    var iface := node.interfaces[names[i]];
    var routes := Routes(iface, f);
    for j := 0 to |routes|
      invariant Collected(node, ethMap, f, names, i, j, groups)
      invariant forall c :: c in cmds <==> c in cmds0 || HostOfSome(node, ethMap, f, names[i], routes[..j], c)
      invariant forall c :: c in seen <==> c in cmds
    {
      CollectedStep(node, ethMap, f, names, i, j, groups);
      HostStep(node, ethMap, f, names[i], routes, j);
      var c := Contribution(node, ethMap, names[i], routes[j], f);
      if c.Some? {
        var host := HostRoute(iface, f, c.value.1);
        if host.Some? && host.value !in seen {
          seen := seen + {host.value};
          cmds := cmds + [host.value];
        }
        groups := AddRoute(groups, c.value.0, c.value.1);
      }
    }
    assert routes[..|routes|] == routes;
    CollectedNext(node, ethMap, f, names, i, groups);
  }

  /** The commands of one family: one for every destination with a single hop, none for conflicting hops. */
  ghost predicate GroupRoutes(f: Family, groups: Groups, part: seq<RouteCommand>) {
    && (forall c | c in part :: c.ViaRoute? && c.family == f && c.dst in groups && groups[c.dst] == [c.hop])
    && (forall d | d in groups && |groups[d]| == 1 :: ViaRoute(f, d, groups[d][0]) in part)
  }

  method AppendRouteGroups(listing: set<Cidr> -> seq<Cidr>, f: Family, groups: Groups,
                           cmds0: seq<RouteCommand>, seen0: set<RouteCommand>)
      returns (cmds: seq<RouteCommand>, seen: set<RouteCommand>, ghost part: seq<RouteCommand>)
    requires IsListing(listing)
    requires forall c :: c in seen0 <==> c in cmds0
    requires forall c | c in cmds0 :: c.DevRoute? || c.family != f
    ensures cmds == cmds0 + part && GroupRoutes(f, groups, part)
    ensures forall c :: c in seen <==> c in cmds
  {
    cmds, seen, part := cmds0, seen0, [];
    var dsts := listing(groups.Keys);
    for i := 0 to |dsts|
      invariant cmds == cmds0 + part && forall c :: c in seen <==> c in cmds
      invariant forall c | c in part :: c.ViaRoute? && c.family == f && c.dst in groups && groups[c.dst] == [c.hop]
      invariant forall k | 0 <= k < i && |groups[dsts[k]]| == 1 :: ViaRoute(f, dsts[k], groups[dsts[k]][0]) in part
    {
      var hops := groups[dsts[i]];
      if |hops| != 1 {
        continue;
      }
      var cmd := ViaRoute(f, dsts[i], hops[0]);
      if cmd !in seen {
        seen := seen + {cmd};
        cmds := cmds + [cmd];
        part := part + [cmd];
      }
    }
    forall d | d in groups && |groups[d]| == 1
      ensures ViaRoute(f, d, groups[d][0]) in part
    {
      assert d in groups.Keys;
      var k :| 0 <= k < |dsts| && dsts[k] == d;
    }
  }

  /** The commands of one family in terms of the node: destinations that collected a single distinct hop. */
  ghost predicate SingleHopRoutes(node: Node, ethMap: PolicyGroups.EthMap, f: Family, part: seq<RouteCommand>)
    requires ValidNode(node)
  {
    && (forall c | c in part :: c.ViaRoute? && c.family == f && HopsFor(node, ethMap, f, c.dst) == {c.hop})
    && (forall d, h :: HopsFor(node, ethMap, f, d) == {h} ==> ViaRoute(f, d, h) in part)
  }

  lemma GroupsToHops(node: Node, ethMap: PolicyGroups.EthMap, f: Family, groups: Groups, part: seq<RouteCommand>)
    requires ValidNode(node) && Proper(groups) && GroupRoutes(f, groups, part)
    requires forall d, h :: Holds(groups, d, h) <==> h in HopsFor(node, ethMap, f, d)
    ensures SingleHopRoutes(node, ethMap, f, part)
  {
    hide HopsFor, ValidNode;
    forall c | c in part
      ensures HopsFor(node, ethMap, f, c.dst) == {c.hop}
    {
      forall h
        ensures h in HopsFor(node, ethMap, f, c.dst) <==> h == c.hop
      {
        assert Holds(groups, c.dst, h) <==> h in groups[c.dst];
      }
    }
    forall d, h | HopsFor(node, ethMap, f, d) == {h}
      ensures ViaRoute(f, d, h) in part
    {
      assert Holds(groups, d, h);
      forall k | 0 <= k < |groups[d]|
        ensures groups[d][k] == h
      {
        assert Holds(groups, d, groups[d][k]);
      }
      assert groups[d][0] == h == groups[d][|groups[d]| - 1];
    }
  }

  /** First the host routes of the overlays, then the routes of each family. */
  ghost predicate IsRendering(node: Node, ethMap: PolicyGroups.EthMap, cmds: seq<RouteCommand>)
    requires ValidNode(node)
  {
    exists hosts, v4, v6 ::
      && HostRoutes(node, ethMap, hosts) && SingleHopRoutes(node, ethMap, V4, v4)
          && SingleHopRoutes(node, ethMap, V6, v6)
      && cmds == hosts + v4 + v6
  }

  method RenderStaticRoutes(listing: set<Cidr> -> seq<Cidr>, node: Node, ethMap: PolicyGroups.EthMap)
      returns (cmds: seq<RouteCommand>)
    requires ValidNode(node) && IsListing(listing)
    ensures IsRendering(node, ethMap, cmds)
  {
    hide Seen, ValidNode, HopsFor, SingleHopRoutes, GroupRoutes, IsListing;
    cmds := [];
    var seen: set<RouteCommand> := {};
    var routes4: Groups, routes6: Groups := map[], map[];
    var names := SortedNames(node.interfaces.Keys);
    NothingSeen(node, ethMap, V4, names);
    NothingSeen(node, ethMap, V6, names);
    hide Collected, HostAsked, AskedBefore;
    for i := 0 to |names|
      invariant Collected(node, ethMap, V4, names, i, 0, routes4) && Collected(node, ethMap, V6, names, i, 0, routes6)
      invariant forall c :: c in cmds <==> AskedBefore(node, ethMap, names, i, c)
      invariant forall c :: c in seen <==> c in cmds
    {
      AskedStep(node, ethMap, names, i);
      routes4, cmds, seen := CollectIface(node, ethMap, V4, names, i, routes4, cmds, seen);
      routes6, cmds, seen := CollectIface(node, ethMap, V6, names, i, routes6, cmds, seen);
    }
    ghost var v4, v6;
    ghost var hosts := cmds;
    AskedByAll(node, ethMap, names, hosts);
    HostsAreDevRoutes(node, ethMap, hosts);
    AllCollected(node, ethMap, V4, names, routes4);
    AllCollected(node, ethMap, V6, names, routes6);
    cmds, seen, v4 := AppendRouteGroups(listing, V4, routes4, cmds, seen);
    GroupsToHops(node, ethMap, V4, routes4, v4);
    GroupFamilies(V4, routes4, v4);
    cmds, seen, v6 := AppendRouteGroups(listing, V6, routes6, cmds, seen);
    GroupsToHops(node, ethMap, V6, routes6, v6);
  }

  lemma NothingSeen(node: Node, ethMap: PolicyGroups.EthMap, f: Family, names: seq<Name>)
    requires ValidNode(node) && forall n | n in names :: n in node.interfaces
    ensures Collected(node, ethMap, f, names, 0, 0, map[])
    ensures forall c :: !AskedBefore(node, ethMap, names, 0, c)
  {
  }

  lemma AskedStep(node: Node, ethMap: PolicyGroups.EthMap, names: seq<Name>, i: nat)
    requires ValidNode(node) && i < |names|
    ensures forall c :: AskedBefore(node, ethMap, names, i + 1, c) <==>
              AskedBefore(node, ethMap, names, i, c)
              || HostAsked(node, ethMap, V4, names[i], c) || HostAsked(node, ethMap, V6, names[i], c)
  {
    hide HostAsked, ValidNode;
    forall c | AskedBefore(node, ethMap, names, i + 1, c)
      ensures AskedBefore(node, ethMap, names, i, c)
              || HostAsked(node, ethMap, V4, names[i], c) || HostAsked(node, ethMap, V6, names[i], c)
    {
      var k, f :| 0 <= k < i + 1 && HostAsked(node, ethMap, f, names[k], c);
      assert f == V4 || f == V6;
    }
  }

  lemma AskedByAll(node: Node, ethMap: PolicyGroups.EthMap, names: seq<Name>, hosts: seq<RouteCommand>)
    requires ValidNode(node) && forall n :: n in names <==> n in node.interfaces
    requires forall c :: c in hosts <==> AskedBefore(node, ethMap, names, |names|, c)
    ensures HostRoutes(node, ethMap, hosts)
  {
    hide HostOfRoute, ValidNode;
    forall c, n, f | HostAsked(node, ethMap, f, n, c) ensures c in hosts {
      assert n in names;
      var k :| 0 <= k < |names| && names[k] == n;
      assert HostAsked(node, ethMap, f, names[k], c);
    }
  }

  /** Host routes come from overlay interfaces only. */
  lemma HostsAreDevRoutes(node: Node, ethMap: PolicyGroups.EthMap, cmds: seq<RouteCommand>)
    requires ValidNode(node) && HostRoutes(node, ethMap, cmds)
    ensures forall c | c in cmds :: c.DevRoute? && HasOverlay(node)
  {
    hide Contribution, ValidNode;
    forall c | c in cmds ensures c.DevRoute? && HasOverlay(node) {
      var n, f :| HostAsked(node, ethMap, f, n, c);
      var r :| r in Routes(node.interfaces[n], f) && HostOfRoute(node, ethMap, f, n, r, c);
      assert node.interfaces[n].kind == Overlay;
    }
  }

  lemma GroupFamilies(f: Family, groups: Groups, part: seq<RouteCommand>)
    requires GroupRoutes(f, groups, part)
    ensures forall c | c in part :: c.family == f
  {
  }

  // ------------------------------------------------------------ executing the commands

  datatype FibKey = FibKey(family: Family, dst: Cidr)

  datatype Target = ToHop(hop: NextHop) | ToDevice(eth: Name)

  function KeyOf(c: RouteCommand): FibKey {
    FibKey(c.family, c.dst)
  }

  function TargetOf(c: RouteCommand): Target {
    if c.ViaRoute? then ToHop(c.hop) else ToDevice(c.eth)
  }

  /** The routing table after executing the commands on an empty one. */
  function Execute(cmds: seq<RouteCommand>): map<FibKey, Target> {
    if cmds == [] then map[]
    else Execute(cmds[..|cmds| - 1])[KeyOf(cmds[|cmds| - 1]) := TargetOf(cmds[|cmds| - 1])]
  }

  lemma {:induction false} ExecuteAfter(a: seq<RouteCommand>, b: seq<RouteCommand>, k: FibKey)
    ensures (exists c | c in b :: KeyOf(c) == k) ==>
              k in Execute(a + b) && exists c | c in b :: KeyOf(c) == k && Execute(a + b)[k] == TargetOf(c)
    ensures (forall c | c in b :: KeyOf(c) != k) ==>
              (k in Execute(a + b) <==> k in Execute(a)) && (k in Execute(a) ==> Execute(a + b)[k] == Execute(a)[k])
    decreases |b|
  {
    if b == [] {
      assert a + b == a;
    } else {
      var rest, last := b[..|b| - 1], b[|b| - 1];
      assert (a + b)[..|a + b| - 1] == a + rest && (a + b)[|a + b| - 1] == last;
      ExecuteAfter(a, rest, k);
      assert b == rest + [last];
    }
  }

  lemma {:induction false} ExecuteCovers(cmds: seq<RouteCommand>, k: FibKey)
    ensures k in Execute(cmds) ==> exists c | c in cmds :: KeyOf(c) == k && Execute(cmds)[k] == TargetOf(c)
  {
    ExecuteAfter([], cmds, k);
    assert [] + cmds == cmds;
  }

  lemma ExecutedPart(node: Node, ethMap: PolicyGroups.EthMap, f: Family, before: seq<RouteCommand>,
                     part: seq<RouteCommand>, d: Cidr)
    requires ValidNode(node) && SingleHopRoutes(node, ethMap, f, part)
    ensures var fib := Execute(before + part);
            && (forall h :: HopsFor(node, ethMap, f, d) == {h} ==> FibKey(f, d) in fib && fib[FibKey(f, d)] == ToHop(h))
            && ((forall h :: HopsFor(node, ethMap, f, d) != {h}) ==>
                  (FibKey(f, d) in fib <==> FibKey(f, d) in Execute(before))
                  && (FibKey(f, d) in fib ==> fib[FibKey(f, d)] == Execute(before)[FibKey(f, d)]))
  {
    hide HopsFor, ValidNode;
    ExecuteAfter(before, part, FibKey(f, d));
    forall h | HopsFor(node, ethMap, f, d) == {h}
      ensures FibKey(f, d) in Execute(before + part) && Execute(before + part)[FibKey(f, d)] == ToHop(h)
    {
      assert KeyOf(ViaRoute(f, d, h)) == FibKey(f, d);
      var c :| c in part && KeyOf(c) == FibKey(f, d) && Execute(before + part)[FibKey(f, d)] == TargetOf(c);
      assert c.hop in HopsFor(node, ethMap, f, c.dst);
    }
  }

  /**
   * What the table holds for `d` once the rendered commands have run: the one next hop
   * if the node's routes bring a single distinct hop for it; otherwise the device of a
   * host route that an overlay interface asks for, or nothing when none does.
   */
  lemma ExecutedTable(node: Node, ethMap: PolicyGroups.EthMap, cmds: seq<RouteCommand>, f: Family, d: Cidr)
    requires ValidNode(node) && IsRendering(node, ethMap, cmds)
    ensures (var (fib, k) := (Execute(cmds), FibKey(f, d));
             && (forall h :: HopsFor(node, ethMap, f, d) == {h} ==> k in fib && fib[k] == ToHop(h))
             && ((forall h :: HopsFor(node, ethMap, f, d) != {h}) ==>
                   && (k in fib <==> exists n, g, c :: HostAsked(node, ethMap, g, n, c) && KeyOf(c) == k)
                   && (k in fib ==> exists n, g, c ::
                       HostAsked(node, ethMap, g, n, c) && KeyOf(c) == k && fib[k] == TargetOf(c))))
  {
    hide HopsFor, ValidNode, HostAsked;
    var k := FibKey(f, d);
    var hosts, v4, v6 :| HostRoutes(node, ethMap, hosts) && SingleHopRoutes(node, ethMap, V4, v4)
                         && SingleHopRoutes(node, ethMap, V6, v6) && cmds == hosts + v4 + v6;
    ExecuteCovers(hosts, k);
    ExecuteAfter([], hosts, k);
    assert [] + hosts == hosts;
    if f == V4 {
      ExecutedPart(node, ethMap, V4, hosts, v4, d);
      ExecuteAfter(hosts + v4, v6, k);
    } else {
      ExecuteAfter(hosts, v4, k);
      ExecutedPart(node, ethMap, V6, hosts + v4, v6, d);
    }
  }

  /** Without overlay interfaces the table holds single-hop destinations and nothing else. */
  lemma ExecutedTableWithoutOverlays(node: Node, ethMap: PolicyGroups.EthMap, cmds: seq<RouteCommand>, f: Family,
                                     d: Cidr)
    requires ValidNode(node) && !HasOverlay(node) && IsRendering(node, ethMap, cmds)
    ensures (var (fib, k) := (Execute(cmds), FibKey(f, d));
             forall h :: HopsFor(node, ethMap, f, d) == {h} <==> k in fib && fib[k] == ToHop(h))
    ensures FibKey(f, d) in Execute(cmds) ==> exists h :: HopsFor(node, ethMap, f, d) == {h}
  {
    ExecutedTable(node, ethMap, cmds, f, d);
    NoHostRoutes(node, ethMap);
    hide HopsFor, ValidNode, IsRendering, HostAsked;
  }

  lemma NoHostRoutes(node: Node, ethMap: PolicyGroups.EthMap)
    requires ValidNode(node) && !HasOverlay(node)
    ensures forall f, n, c :: !HostAsked(node, ethMap, f, n, c)
  {
    hide Contribution, ValidNode;
  }

  // -------------------------------------------------------- the order routes are listed in

  /** Two interfaces whose addresses agree and whose routes differ at most in order or repetition. */
  ghost predicate SameRoutes(a: Iface, b: Iface) {
    && a.kind == b.kind && a.addr4 == b.addr4 && a.addr6 == b.addr6 && a.ll6 == b.ll6
    && (forall r :: r in a.routes4 <==> r in b.routes4)
    && (forall r :: r in a.routes6 <==> r in b.routes6)
  }

  ghost predicate SameUpToOrder(a: Node, b: Node) {
    && a.loopback4 == b.loopback4 && a.loopback6 == b.loopback6
    && a.interfaces.Keys == b.interfaces.Keys
    && forall n | n in a.interfaces :: SameRoutes(a.interfaces[n], b.interfaces[n])
  }

  lemma SameConflicts(a: Node, b: Node, n: Name, c: Cidr)
    requires ValidNode(a) && ValidNode(b) && SameUpToOrder(a, b)
    ensures ConflictsWithWanPeer(a, n, c) <==> ConflictsWithWanPeer(b, n, c)
  {
    hide PeerInSubnet, ValidNode;
  }

  lemma SameIfaceAddresses(a: Node, b: Node, n: Name, f: Family)
    requires ValidNode(a) && ValidNode(b) && SameUpToOrder(a, b) && n in a.interfaces
    ensures IfaceIps(a, n, f) == IfaceIps(b, n, f)
    ensures Addr(a.interfaces[n], f) == Addr(b.interfaces[n], f)
    ensures Addr(a.interfaces[n], f).Some? ==>
              (ConflictsWithWanPeer(a, n, Addr(a.interfaces[n], f).value)
               <==> ConflictsWithWanPeer(b, n, Addr(a.interfaces[n], f).value))
  {
    hide ConflictsWithWanPeer, NormalizeL3Addr, ValidNode;
    assert SameRoutes(a.interfaces[n], b.interfaces[n]);
    if Addr(a.interfaces[n], f).Some? {
      SameConflicts(a, b, n, Addr(a.interfaces[n], f).value);
    }
    if a.interfaces[n].ll6.Some? {
      SameConflicts(a, b, n, a.interfaces[n].ll6.value);
    }
  }

  lemma SameAddresses(a: Node, b: Node, f: Family)
    requires ValidNode(a) && ValidNode(b) && SameUpToOrder(a, b)
    ensures LocalIps(a, f) == LocalIps(b, f) && ConnectedPrefixes(a, f) == ConnectedPrefixes(b, f)
  {
    hide IfaceIps, ConflictsWithWanPeer, ValidNode, Network, SameRoutes;
    forall n | n in a.interfaces
      ensures IfaceIps(a, n, f) == IfaceIps(b, n, f)
      ensures Addr(a.interfaces[n], f) == Addr(b.interfaces[n], f)
      ensures Addr(a.interfaces[n], f).Some? ==>
                (ConflictsWithWanPeer(a, n, Addr(a.interfaces[n], f).value)
                 <==> ConflictsWithWanPeer(b, n, Addr(a.interfaces[n], f).value))
    {
      SameIfaceAddresses(a, b, n, f);
    }
  }

  lemma SameContribution(a: Node, b: Node, ethMap: PolicyGroups.EthMap, f: Family, n: Name, r: Route)
    requires ValidNode(a) && ValidNode(b) && SameUpToOrder(a, b) && n in a.interfaces
    ensures Contribution(a, ethMap, n, r, f) == Contribution(b, ethMap, n, r, f)
  {
    hide LocalIps, ConnectedPrefixes, PeerInSubnet, SameSubnet, NormalizePrefix;
    assert ValidIface(a.interfaces[n]) && ValidIface(b.interfaces[n]);
    assert SameRoutes(a.interfaces[n], b.interfaces[n]);
    SameAddresses(a, b, f);
    assert EffectiveVia(a, a.interfaces[n], r, f) == EffectiveVia(b, b.interfaces[n], r, f);
    hide EffectiveVia;
  }

  /** The hops a destination collects do not depend on the order of an interface's routes. */
  lemma OrderOfRoutesDoesNotMatter(a: Node, b: Node, ethMap: PolicyGroups.EthMap, f: Family, d: Cidr)
    requires ValidNode(a) && ValidNode(b) && SameUpToOrder(a, b)
    ensures HopsFor(a, ethMap, f, d) == HopsFor(b, ethMap, f, d)
  {
    hide Contribution, ValidNode;
    forall n, r | n in a.interfaces
      ensures Contribution(a, ethMap, n, r, f) == Contribution(b, ethMap, n, r, f)
      ensures r in Routes(a.interfaces[n], f) <==> r in Routes(b.interfaces[n], f)
    {
      SameContribution(a, b, ethMap, f, n, r);
      assert SameRoutes(a.interfaces[n], b.interfaces[n]);
    }
    hide SameRoutes;
  }

  /** End to end: nodes that list the same routes in another order get the same routing table. */
  lemma SameTable(a: Node, b: Node, ethMap: PolicyGroups.EthMap, cmdsA: seq<RouteCommand>, cmdsB: seq<RouteCommand>)
    requires ValidNode(a) && ValidNode(b) && SameUpToOrder(a, b) && !HasOverlay(a)
    requires IsRendering(a, ethMap, cmdsA) && IsRendering(b, ethMap, cmdsB)
    ensures Execute(cmdsA) == Execute(cmdsB)
  {
    SameKinds(a, b);
    hide ValidNode, IsRendering, SameUpToOrder, HasOverlay, HopsFor, Execute;
    forall k: FibKey
      ensures k in Execute(cmdsA) <==> k in Execute(cmdsB)
      ensures k in Execute(cmdsA) ==> Execute(cmdsA)[k] == Execute(cmdsB)[k]
    {
      OrderOfRoutesDoesNotMatter(a, b, ethMap, k.family, k.dst);
      ExecutedTableWithoutOverlays(a, ethMap, cmdsA, k.family, k.dst);
      ExecutedTableWithoutOverlays(b, ethMap, cmdsB, k.family, k.dst);
      assert k == FibKey(k.family, k.dst);
    }
  }

  lemma SameKinds(a: Node, b: Node)
    requires SameUpToOrder(a, b)
    ensures HasOverlay(a) <==> HasOverlay(b)
  {
    assert forall n | n in a.interfaces :: SameRoutes(a.interfaces[n], b.interfaces[n]);
  }

  // ------------------------------------------------------- contributions, in fields

  /**
   * Route `r` of interface `n` brings hop `h` for `d`: it is no policy-only, connected or
   * default route, `d` is its destination and not directly connected, `h` is its next hop
   * there, and the next hop it declares is not the node's own.
   */
  ghost predicate BringsHop(
      node: Node, ethMap: PolicyGroups.EthMap, f: Family, n: Name, r: Route, d: Cidr, h: NextHop)
    requires ValidNode(node)
  {
    && n in node.interfaces && n in ethMap && r in Routes(node.interfaces[n], f)
    && !r.policyOnly && r.proto != ProtoConnected
    && r.dst.Some? && r.dst.value != Cidr(Ip(f, 0), 0) && NormalizePrefix(r.dst.value) == d
    && d !in ConnectedPrefixes(node, f) && (Via(r, f).Some? ==> Via(r, f).value !in LocalIps(node, f))
    && h.eth == ethMap[n] && IsNextHop(node, node.interfaces[n], r, f, h.via)
  }

  lemma ContributionIff(node: Node, ethMap: PolicyGroups.EthMap, f: Family, n: Name, r: Route, d: Cidr, h: NextHop)
    requires ValidNode(node) && n in node.interfaces && r in Routes(node.interfaces[n], f)
    ensures Contribution(node, ethMap, n, r, f) == Some((d, h)) <==> BringsHop(node, ethMap, f, n, r, d, h)
  {
    hide EffectiveVia, IsNextHop, ConnectedPrefixes, LocalIps, NormalizePrefix;
    NextHopIff(node, node.interfaces[n], r, f, h.via);
  }

  /** The hops of a destination are exactly those that some route brings for it. */
  lemma HopsForIff(node: Node, ethMap: PolicyGroups.EthMap, f: Family, d: Cidr, h: NextHop)
    requires ValidNode(node)
    ensures h in HopsFor(node, ethMap, f, d) <==> exists n, r :: BringsHop(node, ethMap, f, n, r, d, h)
  {
    hide Contribution;
    forall n, r | n in node.interfaces && r in Routes(node.interfaces[n], f)
      ensures Contribution(node, ethMap, n, r, f) == Some((d, h)) <==> BringsHop(node, ethMap, f, n, r, d, h)
    {
      ContributionIff(node, ethMap, f, n, r, d, h);
    }
    BringersAreListed(node, ethMap, f, d, h);
    hide BringsHop, ValidNode;
    if n, r :| BringsHop(node, ethMap, f, n, r, d, h) {
      assert Contribution(node, ethMap, n, r, f) == Some((d, h));
    }
  }

  lemma BringersAreListed(node: Node, ethMap: PolicyGroups.EthMap, f: Family, d: Cidr, h: NextHop)
    requires ValidNode(node)
    ensures forall n, r | BringsHop(node, ethMap, f, n, r, d, h) ::
              n in node.interfaces && r in Routes(node.interfaces[n], f)
  {
  }
}
