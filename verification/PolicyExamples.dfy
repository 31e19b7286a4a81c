/**
 * Concrete nodes for the policy-routing compiler: one on which a destination spelled
 * with host bits slips past the preference check, one whose rendering the forwarding
 * validator refuses, one that leads IPv6 traffic into an empty table, and one on which
 * a policy-only route stays in its own access.
 */
module PolicyExamples {
  import opened Arithmetic
  import opened Common
  import opened Sorting
  import opened Addressing
  import opened NodeModel
  import opened RouteVia
  import opened PolicyGroups
  import opened LaneRoutes
  import opened PolicyLanes
  import opened DestinationRules
  import opened SharedRules
  import opened CrossLanes
  import opened PolicyRender
  import opened ForwardingValidation
  import opened DenyByDefault
  import RelationSelection

  const A := Name("a")
  const B := Name("b")
  const ETH_A := Name("eth1")
  const ETH_B := Name("eth2")
  const ETH_MAP: EthMap := map[A := ETH_A, B := ETH_B]

  /** 10.1.0.0/31 and 10.2.0.0/31, and the other ends of the links. */
  const LINK_A := Cidr(Ip(V4, 0x0A01_0000), 31)
  const LINK_B := Cidr(Ip(V4, 0x0A02_0000), 31)
  const VIA_A := Ip(V4, 0x0A01_0001)
  const VIA_B := Ip(V4, 0x0A02_0001)

  /** 10.0.0.0/24, and 10.0.0.1/24, which names the same network. */
  const NET := Cidr(Ip(V4, 0x0A00_0000), 24)
  const SPELLED := Cidr(Ip(V4, 0x0A00_0001), 24)

  const NO_INTENT := Intent("", "", "", "", false)

  function RouteTo(dst: Cidr, via: Option<Ip>, proto: Proto, policyOnly: bool): Route {
    Route(Some(dst), via, None, proto, policyOnly, None, "", "", "", NO_INTENT)
  }

  function LaneOf(access: string): Lane {
    Lane(Some(Name(access)), None, {}, Access)
  }

  function Interface(addr: Cidr, access: string, routes: seq<Route>, table: int, priority: int): Iface {
    Iface(OtherKind, None, Some(addr), None, None, Some(LaneOf(access)), routes, [],
          Some(Allocation(ControlPlaneModel, table, Some(priority), priority, None)))
  }

  function TwoLinks(a: Iface, b: Iface, forwarding: seq<ForwardRule>): Node {
    Node(map[A := a, B := b], None, None, forwarding, [])
  }

  // ------------------------------------------------------------------ arithmetic of the links

  lemma Links()
    ensures Valid(LINK_A) && NetworkAddress(LINK_A) == 0x0A01_0000 && Broadcast(LINK_A) == 0x0A01_0001
    ensures Valid(LINK_B) && NetworkAddress(LINK_B) == 0x0A02_0000 && Broadcast(LINK_B) == 0x0A02_0001
    ensures Valid(NET) && Network(NET) == NET && Valid(SPELLED) && Network(SPELLED) == NET
    ensures NormalizePrefix(NET) == NET && NormalizePrefix(SPELLED) == NET
  {
    PowersOfIpv4();
    HostBitsExample();
    hide Pow2;
  }

  lemma Names(node: Node)
    requires node.interfaces.Keys == {A, B}
    ensures SortedNames(node.interfaces.Keys) == [A, B]
  {
    assert "b"[0] == 'b' && "a"[0] == 'a' && !StrLe("b", "a") && StrLe("a", "b");
    NameLeTotal();
    SortedUnique(NameLe, SortedNames(node.interfaces.Keys), [A, B]);
  }

  /** The two interfaces carry the two links, and no interface faces a WAN. */
  ghost predicate OnLinks(node: Node) {
    && node.interfaces.Keys == {A, B} && node.loopback4 == None && node.loopback6 == None
    && node.interfaces[A].addr4 == Some(LINK_A) && node.interfaces[B].addr4 == Some(LINK_B)
    && forall n | n in {A, B} ::
         node.interfaces[n].kind == OtherKind && node.interfaces[n].addr6 == None && node.interfaces[n].ll6 == None
  }

  lemma LocalAddresses(node: Node)
    requires OnLinks(node)
    ensures ValidNode(node) && LocalIps(node, V4) == {LINK_A.ip, LINK_B.ip}
  {
    Links();
    assert forall n, c | n in node.interfaces :: Valid(c) && ValidNode(node) ==> !ConflictsWithWanPeer(node, n, c);
    assert IfaceIps(node, A, V4) == {LINK_A.ip};
    assert IfaceIps(node, B, V4) == {LINK_B.ip};
  }

  /** A next hop at the other end of a link leaves through that link. */
  lemma LinkHop(node: Node, n: Name, fallback: Name, lane: Lane, route: Route)
    requires OnLinks(node) && n in {A, B} && route.via4 == Some(if n == A then VIA_A else VIA_B)
    ensures ValidNode(node)
    ensures RouteSurface(node, ETH_MAP, fallback, lane, route, V4) == Some(n)
    ensures EffectiveVia(node, node.interfaces[n], route, V4) == route.via4
  {
    hide RouteSurface, EffectiveVia, ValidNode;
    LocalAddresses(node);
    LinkSurface(node, n, fallback, lane, route);
    LinkVia(node, n, route);
  }

  lemma LinkSurface(node: Node, n: Name, fallback: Name, lane: Lane, route: Route)
    requires OnLinks(node) && ValidNode(node) && n in {A, B} && route.via4 == Some(if n == A then VIA_A else VIA_B)
    ensures RouteSurface(node, ETH_MAP, fallback, lane, route, V4) == Some(n)
  {
    hide ValidNode, NetworkAddress, Broadcast, NumAddresses;
    Links();
    Names(node);
    hide StrictlySorted;
    var names := [A, B];
    assert names[0] == A && names[1..] == [B] && names[1..][0] == B;
    if n == B {
      assert !SameSubnet(route.via4, Some(LINK_A));
      assert IfaceOnLink(node, ETH_MAP, [B], VIA_B, V4) == Some(B);
    }
  }

  lemma LinkVia(node: Node, n: Name, route: Route)
    requires OnLinks(node) && ValidNode(node) && n in {A, B} && route.via4 == Some(if n == A then VIA_A else VIA_B)
    ensures EffectiveVia(node, node.interfaces[n], route, V4) == route.via4
  {
    hide ValidNode, NetworkAddress, Broadcast, NumAddresses, LocalIps;
    Links();
    LocalAddresses(node);
  }

  lemma OnTwoLinks(node: Node)
    requires OnLinks(node)
    ensures node.interfaces.Keys == {A, B}
  {
  }

  /** The links' own addresses are not the network under test. */
  lemma NotForeign(node: Node, target: Name)
    requires OnLinks(node) && target in {A, B}
    ensures NET !in ForeignAddrs(node, target) && SPELLED !in ForeignAddrs(node, target)
    ensures !IsDefault(NET) && !IsDefault(SPELLED)
  {
    assert forall c | c in ForeignAddrs(node, target) :: c == LINK_A || c == LINK_B;
  }

  // ---------------------------------------------------------- a spelling that slips through

  /** Interface "a" routes 10.0.0.0/24 itself; "b" has a policy route of the same lane to 10.0.0.1/24. */
  function SpelledNode(): Node {
    TwoLinks(Interface(LINK_A, "x", [RouteTo(NET, Some(VIA_A), OtherProto, false)], 100, 1000),
             Interface(LINK_B, "x", [RouteTo(SPELLED, Some(VIA_B), OtherProto, true)], 200, 2000), [])
  }

  /** The lane of "a" collects exactly the two offers, and its group for 10.0.0.0/24 has both hops. */
  lemma SpelledNodeSlipsThrough()
    ensures (var node := SpelledNode();
             && ValidNode(node)
             && LaneEvents(node, ETH_MAP, A, V4)
                == [Offer(true, NET, Some(Hop(Some(VIA_A), ETH_A))),
                    Offer(false, SPELLED, Some(Hop(Some(VIA_B), ETH_B)))]
             && HopsOf(GroupsOf(node, ETH_MAP, A, V4), NET) == [Hop(Some(VIA_A), ETH_A), Hop(Some(VIA_B), ETH_B)])
  {
    hide LocalIps, ValidNode, NormalizePrefix, Classify, LaneEvents, ApplyAll;
    var node := SpelledNode();
    var (ra, rb) := (RouteTo(NET, Some(VIA_A), OtherProto, false), RouteTo(SPELLED, Some(VIA_B), OtherProto, true));
    assert OnLinks(node);
    Links();
    LocalAddresses(node);
    OwnOffer(node, ra);
    PolicyOffer(node, rb);
    hide OnLinks;
    TwoEvents(node, A, [ra], [rb]);
    MisspelledPrefixSlipsThrough(NET, SPELLED, Hop(Some(VIA_A), ETH_A), Hop(Some(VIA_B), ETH_B));
  }

  lemma OwnOffer(node: Node, ra: Route)
    requires OnLinks(node) && ra == RouteTo(NET, Some(VIA_A), OtherProto, false)
    requires node.interfaces[B].lane == node.interfaces[A].lane
    ensures ValidNode(node)
    ensures Classify(node, ETH_MAP, A, V4, A, ra) == Offer(true, NET, Some(Hop(Some(VIA_A), ETH_A)))
  {
    hide RouteSurface, EffectiveVia, ValidNode, RouteLane, ForeignAddrs, Classify, OnLinks;
    OnTwoLinks(node);
    LocalAddresses(node);
    LinkHop(node, A, A, RouteLane(ra, node.interfaces[A]), ra);
    NotForeign(node, A);
    OfferOf(node, A, ra, NET);
  }

  lemma PolicyOffer(node: Node, rb: Route)
    requires OnLinks(node) && rb == RouteTo(SPELLED, Some(VIA_B), OtherProto, true)
    requires node.interfaces[A].lane == node.interfaces[B].lane == Some(LaneOf("x"))
    ensures ValidNode(node)
    ensures Classify(node, ETH_MAP, A, V4, B, rb) == Offer(false, SPELLED, Some(Hop(Some(VIA_B), ETH_B)))
  {
    hide RouteSurface, EffectiveVia, ValidNode, ForeignAddrs, OnLinks;
    OnTwoLinks(node);
    LocalAddresses(node);
    LinkHop(node, B, B, RouteLane(rb, node.interfaces[B]), rb);
    NotForeign(node, A);
  }

  /** With one route an interface, the lane of `target` sees one event of each. */
  lemma TwoEvents(node: Node, target: Name, ra: seq<Route>, rb: seq<Route>)
    requires OnLinks(node) && ValidNode(node) && target in {A, B} && |ra| == |rb| == 1
    requires node.interfaces[A].routes4 == ra && node.interfaces[B].routes4 == rb
    ensures LaneEvents(node, ETH_MAP, target, V4)
         == [Classify(node, ETH_MAP, target, V4, A, ra[0]), Classify(node, ETH_MAP, target, V4, B, rb[0])]
  {
    Names(node);
    hide Classify, ValidNode;
    assert EventsOfIface(node, ETH_MAP, target, V4, A, 0) == [] && EventsOfIface(node, ETH_MAP, target, V4, B, 0) == [];
    assert Events(node, ETH_MAP, target, V4, [A, B], 0) == [];
    assert Events(node, ETH_MAP, target, V4, [A, B], 1) == [Classify(node, ETH_MAP, target, V4, A, ra[0])];
  }

  // ------------------------------------------------------ a rendering that is refused

  /**
   * Lane "a" is connected to 10.0.0.0/24; lane "b", of another access, has a route of its
   * own to that network, and traffic from "a" to "b" is accepted.
   */
  function RefusedNode(): Node {
    TwoLanes([RouteTo(NET, None, ProtoConnected, false)], [RouteTo(NET, Some(VIA_B), OtherProto, false)])
  }

  /** Two lanes of different accesses, where traffic from "a" to "b" is accepted. */
  function TwoLanes(ra: seq<Route>, rb: seq<Route>): Node {
    TwoLinks(Interface(LINK_A, "x", ra, 100, 1000), Interface(LINK_B, "y", rb, 200, 2000), [ForwardRule(true, A, B)])
  }

  const ROW_A := LaneRow(A, ETH_A, Some(Name("x")), Access, 100, 1000, None, [], map[NET := [Hop(None, ETH_A)]], map[])
  const ROW_B :=
    LaneRow(B, ETH_B, Some(Name("y")), Access, 200, 2000, None, [A], map[NET := [Hop(Some(VIA_B), ETH_B)]], map[])

  lemma RefusedGroups()
    ensures (var node := RefusedNode();
             && OnLinks(node) && ValidNode(node)
             && GroupsOf(node, ETH_MAP, A, V4) == ROW_A.routes4 && GroupsOf(node, ETH_MAP, A, V6) == map[]
             && GroupsOf(node, ETH_MAP, B, V4) == ROW_B.routes4 && GroupsOf(node, ETH_MAP, B, V6) == map[])
  {
    hide LaneEvents, ValidNode, NormalizePrefix, Classify, ForeignAddrs, LocalIps, ApplyAll;
    var node := RefusedNode();
    var (ra, rb) := (node.interfaces[A].routes4, node.interfaces[B].routes4);
    assert OnLinks(node);
    LocalAddresses(node);
    NoRoutes(node, A, V6);
    NoRoutes(node, B, V6);
    TwoEvents(node, A, ra, rb);
    TwoEvents(node, B, ra, rb);
    RefusedEvents(node, ra[0], rb[0]);
    hide OnLinks;
    TwoGroups(LaneEvents(node, ETH_MAP, A, V4), Connected(NET, Hop(None, ETH_A)), Nothing, Hop(None, ETH_A));
    var offer := Offer(true, NET, Some(Hop(Some(VIA_B), ETH_B)));
    TwoGroups(LaneEvents(node, ETH_MAP, B, V4), Nothing, offer, Hop(Some(VIA_B), ETH_B));
  }

  /** One hop for the network, from one of the two events. */
  lemma TwoGroups(events: seq<Event>, e0: Event, e1: Event, hop: Hop)
    requires events == [e0, e1]
    requires (e0 == Connected(NET, hop) && e1 == Nothing) || (e0 == Nothing && e1 == Offer(true, NET, Some(hop)))
    ensures ApplyAll(events).groups == map[NET := [hop]]
  {
    Links();
    ApplyTwo(e0, e1);
    hide NormalizePrefix, ApplyAll;
    var none: Groups := map[];
    assert [] + [hop] == [hop] && none - {NET} == none && !IsDefault(NET);
    assert Apply(State(none, {}), Nothing) == State(none, {});
    assert AppendHop(none, NET, hop) == map[NET := [hop]];
  }

  lemma ApplyTwo(e0: Event, e1: Event)
    ensures ApplyAll([e0, e1]) == Apply(Apply(State(map[], {}), e0), e1)
  {
    assert [e0, e1][..1] == [e0] && [e0][..0] == [];
    assert ApplyAll([e0]) == Apply(ApplyAll([]), e0);
  }

  lemma RefusedEvents(node: Node, ra: Route, rb: Route)
    requires OnLinks(node) && ValidNode(node)
    requires ra == RouteTo(NET, None, ProtoConnected, false) && rb == RouteTo(NET, Some(VIA_B), OtherProto, false)
    ensures Classify(node, ETH_MAP, A, V4, A, ra) == Connected(NET, Hop(None, ETH_A))
    ensures Classify(node, ETH_MAP, A, V4, B, rb) == Nothing
    ensures Classify(node, ETH_MAP, B, V4, A, ra) == Nothing
    ensures Classify(node, ETH_MAP, B, V4, B, rb) == Offer(true, NET, Some(Hop(Some(VIA_B), ETH_B)))
  {
    hide Classify;
    QuietEvents(node, ra, rb);
    OwnRouteOffer(node, rb);
  }

  lemma QuietEvents(node: Node, ra: Route, rb: Route)
    requires OnLinks(node) && ValidNode(node)
    requires ra == RouteTo(NET, None, ProtoConnected, false) && rb == RouteTo(NET, Some(VIA_B), OtherProto, false)
    ensures Classify(node, ETH_MAP, A, V4, A, ra) == Connected(NET, Hop(None, ETH_A))
    ensures Classify(node, ETH_MAP, A, V4, B, rb) == Nothing && Classify(node, ETH_MAP, B, V4, A, ra) == Nothing
  {
    hide RouteSurface, EffectiveVia, ValidNode, RouteLane, RouteMatchesIngress, ForeignAddrs;
  }

  lemma OwnRouteOffer(node: Node, rb: Route)
    requires OnLinks(node) && ValidNode(node) && rb == RouteTo(NET, Some(VIA_B), OtherProto, false)
    ensures Classify(node, ETH_MAP, B, V4, B, rb) == Offer(true, NET, Some(Hop(Some(VIA_B), ETH_B)))
  {
    hide RouteSurface, EffectiveVia, ValidNode, RouteLane, ForeignAddrs, Classify, OnLinks;
    OnTwoLinks(node);
    LinkHop(node, B, B, RouteLane(rb, node.interfaces[B]), rb);
    NotForeign(node, B);
    OfferOf(node, B, rb, NET);
  }

  /** An own route to a foreign network is an offer, on the surface it leaves through. */
  lemma OfferOf(node: Node, target: Name, route: Route, dst: Cidr)
    requires ValidNode(node) && target in node.interfaces && target in ETH_MAP
    requires !route.policyOnly && route.proto == OtherProto && route.dst == Some(dst) && !IsDefault(dst)
    ensures Classify(node, ETH_MAP, target, V4, target, route)
         == (var surface := RouteSurface(node, ETH_MAP, target, RouteLane(route, node.interfaces[target]), route, V4);
             if dst in ForeignAddrs(node, target) || surface.None? then Nothing
             else
               var via := EffectiveVia(node, node.interfaces[surface.value], route, V4);
               Offer(true, dst, if via.None? then None else Some(Hop(via, ETH_MAP[surface.value]))))
  {
    hide RouteSurface, EffectiveVia, ValidNode, RouteLane, RouteMatchesIngress, ForeignAddrs, ETH_MAP;
  }

  lemma NoRoutes(node: Node, target: Name, f: Family)
    requires OnLinks(node) && ValidNode(node) && target in {A, B}
    requires Routes(node.interfaces[A], f) == Routes(node.interfaces[B], f) == []
    ensures GroupsOf(node, ETH_MAP, target, f) == map[]
  {
    Names(node);
    hide Classify, ValidNode;
    assert Events(node, ETH_MAP, target, f, [A, B], 0) == [];
    assert EventsOfIface(node, ETH_MAP, target, f, A, 0) == [] && EventsOfIface(node, ETH_MAP, target, f, B, 0) == [];
    assert Events(node, ETH_MAP, target, f, [A, B], 1) == [];
    assert LaneEvents(node, ETH_MAP, target, f) == [];
  }

  /** The two lanes; only "b" is entered by traffic of the other. */
  lemma RefusedRows()
    ensures ValidNode(RefusedNode()) && LaneRows(RefusedNode(), ETH_MAP) == Ok([ROW_A, ROW_B])
  {
    hide GroupsOf, ValidNode, OnLinks;
    var node := RefusedNode();
    RefusedGroups();
    TwoLaneRows(node, node.interfaces[A].routes4, node.interfaces[B].routes4);
  }

  lemma TwoLaneRows(node: Node, ra: seq<Route>, rb: seq<Route>)
    requires ValidNode(node) && node == TwoLanes(ra, rb)
    ensures LaneRows(node, ETH_MAP)
         == Ok([WithGroups(node, A, ROW_A), WithGroups(node, B, ROW_B)])
  {
    hide GroupsOf, ValidNode, SharedInterfaces, RowOf, IsSurface, WithGroups;
    TwoLaneShares(node, ra, rb);
    TwoLaneRow(node, ra, rb, A);
    TwoLaneRow(node, ra, rb, B);
    Names(node);
    assert RowsOf(node, ETH_MAP, [A, B], 0) == Ok([]);
    hide TwoLanes, A, B, ETH_MAP, ROW_A, ROW_B, RowsOf;
    OneMoreRow(node, [A, B], 1);
    OneMoreRow(node, [A, B], 2);
    var (a, b) := (WithGroups(node, A, ROW_A), WithGroups(node, B, ROW_B));
    assert [] + [a] == [a] && [a] + [b] == [a, b];
  }

  function WithGroups(node: Node, n: Name, row: LaneRow): LaneRow
    requires ValidNode(node) && n in node.interfaces
  {
    row.(routes4 := GroupsOf(node, ETH_MAP, n, V4), routes6 := GroupsOf(node, ETH_MAP, n, V6))
  }

  lemma OneMoreRow(node: Node, names: seq<Name>, count: nat)
    requires ValidNode(node) && 0 < count <= |names|
    ensures (var (before, n) := (RowsOf(node, ETH_MAP, names, count - 1), names[count - 1]);
             before.Ok? && IsSurface(node, ETH_MAP, n) && RowOf(node, ETH_MAP, n).Ok? ==>
               RowsOf(node, ETH_MAP, names, count) == Ok(before.value + [RowOf(node, ETH_MAP, n).value]))
  {
    hide RowOf, IsSurface, ValidNode, ETH_MAP;
  }

  lemma TwoLaneRow(node: Node, ra: seq<Route>, rb: seq<Route>, n: Name)
    requires ValidNode(node) && node == TwoLanes(ra, rb) && n in {A, B}
    requires SharedInterfaces(node, ETH_MAP, A) == [] && SharedInterfaces(node, ETH_MAP, B) == [A]
    ensures IsSurface(node, ETH_MAP, n)
    ensures RowOf(node, ETH_MAP, n) == Ok(WithGroups(node, n, if n == A then ROW_A else ROW_B))
  {
    hide GroupsOf, ValidNode, SharedInterfaces;
  }

  lemma TwoLaneShares(node: Node, ra: seq<Route>, rb: seq<Route>)
    requires node == TwoLanes(ra, rb)
    ensures SharedInterfaces(node, ETH_MAP, A) == [] && SharedInterfaces(node, ETH_MAP, B) == [A]
  {
    hide SameUplinkPeers, ForwardingSources, Deduped, Known, SharedInterfaces;
    TwoLaneSources(node, ra, rb);
    TwoLanePeers(node, ra, rb);
    DedupedTwo();
    KnownTwo();
    Names(node);
    SharesOf(node, A);
    SharesOf(node, B);
    hide TwoLanes, A, B, ETH_MAP;
    assert [A] + [] + [] == [A] && [B] + [] + [A] == [B, A];
  }

  lemma SharesOf(node: Node, target: Name)
    requires target in node.interfaces && target in ETH_MAP
    ensures SharedInterfaces(node, ETH_MAP, target)
         == Known(ETH_MAP, target,
                  Deduped([target] + SameUplinkPeers(node, SortedNames(node.interfaces.Keys), target)
                          + ForwardingSources(ETH_MAP, node.forwarding, target)))
  {
    hide SameUplinkPeers, ForwardingSources, Deduped, Known;
  }

  lemma TwoLanePeers(node: Node, ra: seq<Route>, rb: seq<Route>)
    requires node == TwoLanes(ra, rb)
    ensures SameUplinkPeers(node, [A, B], A) == [] && SameUplinkPeers(node, [A, B], B) == []
  {
    var names := [A, B];
    assert IfaceLane(node.interfaces[A]).access.Some? && IfaceLane(node.interfaces[B]).access.Some?;
    assert node.interfaces.Keys == {A, B};
    hide TwoLanes, SameUplink, IfaceLane;
    assert names[1..] == [B] && [B][1..] == [];
    assert SameUplinkPeers(node, [], A) == [] && SameUplinkPeers(node, [], B) == [];
    assert SameUplinkPeers(node, [B], A) == [] && SameUplinkPeers(node, [B], B) == [];
  }

  lemma TwoLaneSources(node: Node, ra: seq<Route>, rb: seq<Route>)
    requires node == TwoLanes(ra, rb)
    ensures ForwardingSources(ETH_MAP, node.forwarding, A) == []
    ensures ForwardingSources(ETH_MAP, node.forwarding, B) == [A]
  {
    assert node.forwarding == [ForwardRule(true, A, B)] && node.forwarding[1..] == [];
    assert "eth1" != "b" && "eth2" != "b" && "a" != "b";
    assert LogicalInterface(ETH_MAP, A) == Some(A);
  }

  lemma DedupedTwo()
    ensures Deduped([A]) == [A] && Deduped([B, A]) == [B, A]
  {
    assert A != B;
    hide A, B, Deduped;
    NothingDeduped();
    DedupedMore<Name>([], A);
    DedupedMore<Name>([], B);
    DedupedMore([B], A);
    assert [] + [A] == [A] && [] + [B] == [B] && [B] + [A] == [B, A];
  }

  lemma NothingDeduped()
    ensures Deduped<Name>([]) == []
  {
  }

  lemma KnownTwo()
    ensures Known(ETH_MAP, A, [A]) == [] && Known(ETH_MAP, B, [B, A]) == [A]
  {
    assert [B, A][1..] == [A] && [A][1..] == [] && [A] + [] == [A];
    assert Known(ETH_MAP, A, []) == [] && Known(ETH_MAP, B, []) == [];
    assert Known(ETH_MAP, B, [A]) == [A];
  }

  /**
   * The renderer accepts this node, and the validator refuses every rendering of it:
   * lane "a" sends its own network, entering on its own interface, to table 100, while
   * Phase 3 sends the same traffic to table 200.
   */
  lemma RefusedNodeIsRefused(listing: set<Cidr> -> seq<Cidr>, cmds: seq<Command>)
    requires IsListing(listing)
    ensures ValidNode(RefusedNode())
    ensures RelationSelection.Accepted(RefusedNode(), ETH_MAP, [], []) && LaneRows(RefusedNode(), ETH_MAP).Ok?
    ensures IsRendered(listing, RefusedNode(), ETH_MAP, [], cmds) ==> !Functional(cmds)
  {
    hide LaneRows, OwnPrefix, IsListing, ValidNode, IsRendered, Functional, Serving, FamilyConsistent, IsBest;
    var node := RefusedNode();
    RefusedRows();
    OwnNetwork(node);
    BestIsB(Key(V4, NET, ETH_A));
    FamiliesAgree();
    hide RefusedNode;
    assert ROW_A in [ROW_A, ROW_B];
    if IsRendered(listing, node, ETH_MAP, [], cmds) {
      RenderingAcceptedIff(listing, node, ETH_MAP, [], cmds);
      assert !Unopposed(ETH_MAP, [ROW_A, ROW_B], ROW_A, Key(V4, NET, ETH_A));
    }
  }

  lemma BestIsB(k: Key)
    requires k == Key(V4, NET, ETH_A)
    ensures IsBest([ROW_A, ROW_B], Serving(ETH_MAP, k), 1)
  {
    assert EthsOf(ETH_MAP, [A]) == [ETH_A] by {
      assert [A][1..] == [];
    }
    assert NET != DefaultOf(V4);
    assert Serves(ETH_MAP, ROW_B, k) && !Serves(ETH_MAP, ROW_A, k);
  }

  lemma FamiliesAgree()
    ensures FamilyConsistent([ROW_A, ROW_B])
  {
    forall row, f, d | row in [ROW_A, ROW_B] && d in LaneGroups(row, f)
      ensures d.ip.family == f
    {
      assert row == ROW_A || row == ROW_B;
    }
  }

  lemma OwnNetwork(node: Node)
    requires ValidNode(node) && node == RefusedNode()
    ensures OwnPrefix(node, ROW_A, V4, NET)
  {
    Links();
    var iface := node.interfaces[A];
    assert iface.routes4[1..] == [];
    hide ValidNode, NormalizePrefix, Network;
    assert RoutePrefixes(iface.routes4, V4, false) == [NET];
    assert NET in SourcePrefixes(iface, V4, false);
    assert NET in LaneGroups(ROW_A, V4);
  }

  // ------------------------------------------------------- a lane that is not denied

  /** Two lanes of different accesses and tables, without any route. */
  function UndroppedNode(): Node {
    TwoLinks(Interface(LINK_A, "x", [], 100, 1000), Interface(LINK_B, "y", [], 200, 2000), [])
  }

  ghost predicate IsEmptyLane(row: LaneRow, table: int) {
    row.table == table && row.kind == Access && row.routes4 == map[] && row.routes6 == map[]
  }

  lemma UndroppedRow(n: Name)
    requires n in {A, B}
    ensures ValidNode(UndroppedNode()) && IsSurface(UndroppedNode(), ETH_MAP, n)
    ensures (var row := RowOf(UndroppedNode(), ETH_MAP, n);
             row.Ok? && row.value.ifname == n && IsEmptyLane(row.value, if n == A then 100 else 200))
  {
    hide GroupsOf, ValidNode, SharedInterfaces;
    var node := UndroppedNode();
    assert OnLinks(node);
    LocalAddresses(node);
    NoRoutes(node, n, V4);
    NoRoutes(node, n, V6);
    hide OnLinks;
  }

  lemma UndroppedRows()
    ensures ValidNode(UndroppedNode()) && LaneRows(UndroppedNode(), ETH_MAP).Ok?
    ensures (var rows := LaneRows(UndroppedNode(), ETH_MAP).value;
             && (exists row :: row in rows && IsEmptyLane(row, 100))
             && (forall row | row in rows :: IsEmptyLane(row, 100) || IsEmptyLane(row, 200)))
  {
    hide RowOf, IsSurface, ValidNode, IsEmptyLane, RowsOf, StrictlySorted, NamesRise;
    var node := UndroppedNode();
    var names := SortedNames(node.interfaces.Keys);
    assert node.interfaces.Keys == {A, B};
    hide UndroppedNode;
    UndroppedRow(A);
    UndroppedRow(B);
    LanesAreTheSurfaces(node, ETH_MAP, names, |names|);
    assert names[..|names|] == names;
    assert forall k | 0 <= k < |names| :: names[k] in names;
    assert A in names;
  }

  /**
   * The renderer accepts this node, and in every rendering of it IPv6 traffic is led into
   * table 100, which holds neither a route nor a blackhole.
   */
  lemma UndroppedNodeIsNotDenied(listing: set<Cidr> -> seq<Cidr>, cmds: seq<Command>)
    requires IsListing(listing)
    ensures ValidNode(UndroppedNode())
    ensures RelationSelection.Accepted(UndroppedNode(), ETH_MAP, [], []) && LaneRows(UndroppedNode(), ETH_MAP).Ok?
    ensures IsRendered(listing, UndroppedNode(), ETH_MAP, [], cmds) ==>
              TableEntered(cmds, 100, V6) && !TableFilled(cmds, 100, V6)
  {
    hide LaneRows, IsListing, ValidNode, UndroppedNode, LaneRendering, TableEntered, TableFilled;
    var node := UndroppedNode();
    UndroppedRows();
    RowsOfNode(node, ETH_MAP);
    var rows := LaneRows(node, ETH_MAP).value;
    if IsRendered(listing, node, ETH_MAP, [], cmds) {
      var selectors, selected :|
        && RelationSelection.Accepted(node, ETH_MAP, [], selectors)
        && RelationSelection.RendersSelectors(selectors, selected)
        && cmds == LaneRendering(listing, node, ETH_MAP, selected, rows);
      TableFilledIff(listing, node, ETH_MAP, selected, rows, 100, V6);
      TableEnteredIff(listing, node, ETH_MAP, selected, rows, 100, V6);
      hide RowOfNode;
      var row :| row in rows && IsEmptyLane(row, 100);
      assert LaneEnters(row, V6);
    }
  }

  // ------------------------------------------------ a route that stays in its access

  const POLICY_ROUTE := RouteTo(NET, Some(VIA_B), OtherProto, true)

  /** Interface "b", of access "y", has a policy-only route to 10.0.0.0/24; "a" is of access "x". */
  function AccessNode(): Node {
    TwoLanes([], [POLICY_ROUTE])
  }

  /** The lane of "a" gets no hop for that network, and the lane of "b" gets one. */
  lemma RouteStaysInItsAccess(h: Hop)
    ensures (var node := AccessNode();
             && ValidNode(node)
             && h !in HopsOf(GroupsOf(node, ETH_MAP, A, V4), NET)
             && (h in HopsOf(GroupsOf(node, ETH_MAP, B, V4), NET) <==> h == Hop(Some(VIA_B), ETH_B)))
  {
    hide GroupsOf, HopsOf, ValidNode, Brings, OnLinks;
    var node := AccessNode();
    OnAccessLinks(node);
    LocalAddresses(node);
    StaysOut(node, h);
    ComesIn(node, h);
  }

  lemma OnAccessLinks(node: Node)
    requires node == AccessNode()
    ensures OnLinks(node)
  {
  }

  lemma StaysOut(node: Node, h: Hop)
    requires ValidNode(node) && node == AccessNode()
    ensures h !in HopsOf(GroupsOf(node, ETH_MAP, A, V4), NET)
  {
    hide GroupsOf, HopsOf, ValidNode, Surface, IsNextHop;
    assert node.interfaces[A].routes4 == [] && node.interfaces[B].routes4 == [POLICY_ROUTE];
    assert !MayEnter(LaneAt(node.interfaces[A]), LaneOfRoute(POLICY_ROUTE, node.interfaces[B]), POLICY_ROUTE) by {
      assert "x"[0] != "y"[0];
    }
    GroupHoldsIff(node, ETH_MAP, A, V4, NET, h);
  }

  lemma ComesIn(node: Node, h: Hop)
    requires ValidNode(node) && node == AccessNode() && OnLinks(node)
    ensures h in HopsOf(GroupsOf(node, ETH_MAP, B, V4), NET) <==> h == Hop(Some(VIA_B), ETH_B)
  {
    hide GroupsOf, HopsOf, ValidNode, LeavesBy, IsNextHop, OnLinks, RouteSurface, EffectiveVia, IsOthersAddress;
    hide ForeignAddrs, NormalizePrefix;
    Links();
    var (iface, lane) := (node.interfaces[B], LaneOfRoute(POLICY_ROUTE, node.interfaces[B]));
    LinkHop(node, B, B, lane, POLICY_ROUTE);
    NotForeign(node, B);
    OthersAddressIff(node, B, NET);
    forall m
      ensures LeavesBy(node, ETH_MAP, V4, B, POLICY_ROUTE, lane, m) <==> m == B
    {
      RouteSurfaceIff(node, ETH_MAP, V4, B, POLICY_ROUTE, lane, m);
    }
    forall hop
      ensures IsNextHop(node, iface, POLICY_ROUTE, V4, hop) <==> hop == VIA_B
    {
      NextHopIff(node, iface, POLICY_ROUTE, V4, hop);
    }
    assert iface.routes4 == [POLICY_ROUTE] && node.interfaces[A].routes4 == [];
    assert Surface(node, ETH_MAP, B, V4, B, POLICY_ROUTE, B);
    assert ClaimsFor(node, ETH_MAP, B, V4, POLICY_ROUTE, NET);
    assert Brings(node, ETH_MAP, B, V4, B, POLICY_ROUTE, h) <==> h == Hop(Some(VIA_B), ETH_B);
    assert forall n, r | BringsTo(node, ETH_MAP, B, V4, n, r, NET, h) :: n == B;
    ClaimedGroupIff(node, ETH_MAP, B, V4, NET, 0, h);
  }
}
