/**
 * A concrete node whose rendering the forwarding validator accepts and on which a lane
 * of a smaller priority number captures the traffic that another lane claims.
 */
module CaptureExample {
  import opened Arithmetic
  import opened Common
  import opened Sorting
  import opened Addressing
  import opened NodeModel
  import opened RouteVia
  import opened PolicyGroups
  import opened PolicyLanes
  import opened DestinationRules
  import opened SharedRules
  import opened CrossLanes
  import opened PolicyRender
  import opened RuleOrder
  import opened ForwardingValidation
  import opened PolicyExamples
  import opened PolicyLookup
  import opened PolicyCapture
  import RelationSelection

  /** 10.9.0.0/24, the network behind lane "a", and the default route. */
  const HOME := Cidr(Ip(V4, 0x0A09_0000), 24)
  const ANYWHERE := DefaultOf(V4)

  const HOME_ROUTE := RouteTo(HOME, None, ProtoConnected, false)
  const DEFAULT_ROUTE := RouteTo(ANYWHERE, Some(VIA_A), OtherProto, false)
  const NET_ROUTE := RouteTo(NET, Some(VIA_B), OtherProto, false)

  /**
   * Lane "a" is connected to 10.9.0.0/24 and has a default route; lane "b", of another
   * access, routes 10.0.0.0/24, and traffic from "a" to "b" is accepted.
   */
  function CaptureNode(): Node {
    TwoLanes([HOME_ROUTE, DEFAULT_ROUTE], [NET_ROUTE])
  }

  const HOP_A := Hop(Some(VIA_A), ETH_A)
  const HOP_B := Hop(Some(VIA_B), ETH_B)
  const GROUPS_A: Groups := map[HOME := [Hop(None, ETH_A)], ANYWHERE := [HOP_A]]
  const LANE_A := ROW_A.(routes4 := GROUPS_A)

  /** 10.9.0.5 to 10.0.0.5, entering the interface of lane "a". */
  const PACKET := Probe(ETH_A, Ip(V4, 0x0A09_0005), Ip(V4, 0x0A00_0005))

  /** What lane "b" claims for that packet. */
  const CLAIM := DestRule(V4, NET, ETH_A, 2000, 200)

  // ------------------------------------------------------------------ the lanes' tables

  lemma Blocks()
    ensures Valid(HOME) && Network(HOME) == HOME && NormalizePrefix(HOME) == HOME && !IsDefault(HOME)
    ensures NormalizePrefix(ANYWHERE) == ANYWHERE
    ensures Within(HOME, PACKET.src) && Within(NET, PACKET.dst) && Within(ANYWHERE, PACKET.dst)
  {
    PowersOfIpv4();
    hide Pow2;
    Division(HOME.ip.value, 0xA_0900, 256, 0);
    Division(NET.ip.value, 0xA_0000, 256, 0);
    assert NumAddresses(HOME) == 256 && NumAddresses(NET) == 256 && NumAddresses(ANYWHERE) == Pow2(32);
    Division(0, 0, Pow2(32), 0);
  }

  lemma CaptureEvents()
    ensures (var node := CaptureNode();
             && OnLinks(node) && ValidNode(node)
             && LaneEvents(node, ETH_MAP, A, V4)
                == [Connected(HOME, Hop(None, ETH_A)), Offer(true, ANYWHERE, Some(HOP_A)), Nothing]
             && LaneEvents(node, ETH_MAP, B, V4) == [Nothing, Nothing, Offer(true, NET, Some(HOP_B))])
  {
    hide LocalIps, ValidNode, NormalizePrefix, Classify, LaneEvents;
    var node := CaptureNode();
    assert OnLinks(node);
    LocalAddresses(node);
    ThreeEvents(node, A);
    ThreeEvents(node, B);
    hide OnLinks;
    OwnEvents(node);
    ForeignEvents(node);
  }

  lemma ThreeEvents(node: Node, target: Name)
    requires node == CaptureNode() && ValidNode(node) && target in {A, B}
    ensures LaneEvents(node, ETH_MAP, target, V4)
         == [Classify(node, ETH_MAP, target, V4, A, HOME_ROUTE), Classify(node, ETH_MAP, target, V4, A, DEFAULT_ROUTE),
             Classify(node, ETH_MAP, target, V4, B, NET_ROUTE)]
  {
    hide Classify, ValidNode, LaneEvents;
    Names(node);
    EventsOfThree(node, ETH_MAP, target, A, B, HOME_ROUTE, DEFAULT_ROUTE, NET_ROUTE);
  }

  /** The events of two mapped interfaces with two routes and one. */
  lemma EventsOfThree(node: Node, ethMap: EthMap, target: Name, a: Name, b: Name, r0: Route, r1: Route, r2: Route)
    requires ValidNode(node) && node.interfaces.Keys == {a, b} && a in ethMap && b in ethMap && target in {a, b}
    requires SortedNames(node.interfaces.Keys) == [a, b]
    requires node.interfaces[a].routes4 == [r0, r1] && node.interfaces[b].routes4 == [r2]
    ensures LaneEvents(node, ethMap, target, V4)
         == [Classify(node, ethMap, target, V4, a, r0), Classify(node, ethMap, target, V4, a, r1),
             Classify(node, ethMap, target, V4, b, r2)]
  {
    hide Classify, ValidNode, StrictlySorted, NameLe, SortedNames;
    var (e0, e1, e2) := (Classify(node, ethMap, target, V4, a, r0), Classify(node, ethMap, target, V4, a, r1),
                         Classify(node, ethMap, target, V4, b, r2));
    TwoOfIface(node, ethMap, target, a, r0, r1);
    assert EventsOfIface(node, ethMap, target, V4, b, 0) == [];
    assert EventsOfIface(node, ethMap, target, V4, b, 1) == [e2];
    hide EventsOfIface;
    assert Events(node, ethMap, target, V4, [a, b], 0) == [];
    assert Events(node, ethMap, target, V4, [a, b], 1) == [e0, e1];
  }

  lemma TwoOfIface(node: Node, ethMap: EthMap, target: Name, a: Name, r0: Route, r1: Route)
    requires ValidNode(node) && a in node.interfaces && a in ethMap && target in node.interfaces
    requires node.interfaces[a].routes4 == [r0, r1]
    ensures EventsOfIface(node, ethMap, target, V4, a, 2)
         == [Classify(node, ethMap, target, V4, a, r0), Classify(node, ethMap, target, V4, a, r1)]
  {
    hide Classify, ValidNode;
    assert EventsOfIface(node, ethMap, target, V4, a, 0) == [];
    assert EventsOfIface(node, ethMap, target, V4, a, 1) == [Classify(node, ethMap, target, V4, a, r0)];
  }

  /** Each lane takes the routes of its own interface. */
  lemma OwnEvents(node: Node)
    requires node == CaptureNode() && ValidNode(node)
    ensures Classify(node, ETH_MAP, A, V4, A, HOME_ROUTE) == Connected(HOME, Hop(None, ETH_A))
    ensures Classify(node, ETH_MAP, A, V4, A, DEFAULT_ROUTE) == Offer(true, ANYWHERE, Some(HOP_A))
    ensures Classify(node, ETH_MAP, B, V4, B, NET_ROUTE) == Offer(true, NET, Some(HOP_B))
  {
    hide RouteSurface, EffectiveVia, ValidNode, RouteMatchesIngress, ForeignAddrs, OnLinks;
    assert OnLinks(node) by {
      LinksOf(node);
    }
    LinkVia(node, A, DEFAULT_ROUTE);
    OwnRouteOffer(node, NET_ROUTE);
  }

  lemma LinksOf(node: Node)
    requires node == CaptureNode()
    ensures OnLinks(node)
  {
  }

  /** Routes of another interface that are not policy routes bring a lane nothing. */
  lemma ForeignEvents(node: Node)
    requires node == CaptureNode() && ValidNode(node)
    ensures Classify(node, ETH_MAP, B, V4, A, HOME_ROUTE) == Nothing
    ensures Classify(node, ETH_MAP, B, V4, A, DEFAULT_ROUTE) == Nothing
    ensures Classify(node, ETH_MAP, A, V4, B, NET_ROUTE) == Nothing
  {
    hide RouteSurface, EffectiveVia, ValidNode, RouteMatchesIngress, ForeignAddrs;
  }

  lemma ApplyThree(e0: Event, e1: Event, e2: Event)
    ensures ApplyAll([e0, e1, e2]) == Apply(Apply(Apply(State(map[], {}), e0), e1), e2)
  {
    ApplyTwo(e0, e1);
    assert [e0, e1, e2][..2] == [e0, e1];
  }

  lemma CaptureGroups()
    ensures (var node := CaptureNode();
             && ValidNode(node)
             && GroupsOf(node, ETH_MAP, A, V4) == GROUPS_A && GroupsOf(node, ETH_MAP, A, V6) == map[]
             && GroupsOf(node, ETH_MAP, B, V4) == ROW_B.routes4 && GroupsOf(node, ETH_MAP, B, V6) == map[])
  {
    hide LaneEvents, ValidNode, NormalizePrefix, ApplyAll;
    var node := CaptureNode();
    CaptureEvents();
    NoRoutes(node, A, V6);
    NoRoutes(node, B, V6);
    hide OnLinks;
    Links();
    Blocks();
    var none: Groups := map[];
    var (home, own) := (Connected(HOME, Hop(None, ETH_A)), Offer(true, ANYWHERE, Some(HOP_A)));
    ApplyThree(home, own, Nothing);
    ApplyThree(Nothing, Nothing, Offer(true, NET, Some(HOP_B)));
    GroupsAreThose();
  }

  lemma GroupsAreThose()
    ensures (var (home, own) := (Connected(HOME, Hop(None, ETH_A)), Offer(true, ANYWHERE, Some(HOP_A)));
             Apply(Apply(Apply(State(map[], {}), home), own), Nothing).groups == GROUPS_A)
    ensures Apply(Apply(Apply(State(map[], {}), Nothing), Nothing), Offer(true, NET, Some(HOP_B))).groups
         == ROW_B.routes4
  {
    Links();
    Blocks();
    hide NormalizePrefix;
    var none: Groups := map[];
    assert none - {NET} == none && [] + [HOP_B] == [HOP_B] && [] + [HOP_A] == [HOP_A];
    assert [] + [Hop(None, ETH_A)] == [Hop(None, ETH_A)];
    assert HOME != ANYWHERE && IsDefault(ANYWHERE) && !IsDefault(NET);
    assert AppendHop(none, HOME, Hop(None, ETH_A)) == map[HOME := [Hop(None, ETH_A)]];
  }

  lemma CaptureRows()
    ensures ValidNode(CaptureNode()) && LaneRows(CaptureNode(), ETH_MAP) == Ok([LANE_A, ROW_B])
  {
    hide GroupsOf, ValidNode;
    CaptureGroups();
    TwoLaneRows(CaptureNode(), [HOME_ROUTE, DEFAULT_ROUTE], [NET_ROUTE]);
  }

  // --------------------------------------------------------------------- the capture

  lemma SourcesOfA(iface: Iface)
    requires ValidIface(iface) && iface == Interface(LINK_A, "x", [HOME_ROUTE, DEFAULT_ROUTE], 100, 1000)
    ensures SourcePrefixes(iface, V4, false) == [HOME]
  {
    Blocks();
    hide NormalizePrefix, Network, Valid, Deduped;
    assert iface.routes4[1..] == [DEFAULT_ROUTE] && [DEFAULT_ROUTE][1..] == [];
    assert RoutePrefixes([DEFAULT_ROUTE], V4, false) == [];
    assert RoutePrefixes(iface.routes4, V4, false) == [HOME];
    OneDeduped(HOME);
    assert [] + [HOME] == [HOME];
  }

  lemma OneDeduped(c: Cidr)
    ensures Deduped<Cidr>([]) == [] && Deduped([c]) == [c]
  {
    DedupedMore<Cidr>([], c);
    assert [] + [c] == [c];
  }

  lemma SourcesOfB(iface: Iface)
    requires ValidIface(iface) && iface == Interface(LINK_B, "y", [NET_ROUTE], 200, 2000)
    ensures SourcePrefixes(iface, V4, false) == []
  {
    hide NormalizePrefix, Network, Valid, Deduped;
    assert iface.routes4[1..] == [];
    assert RoutePrefixes(iface.routes4, V4, false) == [];
    OneDeduped(HOME);
  }

  /** The only prefixes that the lanes route on their own interfaces: "a" has its network, "b" has none. */
  lemma OwnPrefixes(node: Node)
    requires ValidNode(node) && node == CaptureNode()
    ensures SourcePrefixes(node.interfaces[A], V4, false) == [HOME]
    ensures forall row, f, c :: row in [LANE_A, ROW_B] && OwnPrefix(node, row, f, c) ==>
                                  row == LANE_A && f == V4 && c == HOME
  {
    hide SourcePrefixes;
    SourcesOfA(node.interfaces[A]);
    SourcesOfB(node.interfaces[B]);
    hide CaptureNode, ValidNode;
    forall row, f, c | row in [LANE_A, ROW_B] && OwnPrefix(node, row, f, c)
      ensures row == LANE_A && f == V4 && c == HOME
    {
      assert row == LANE_A || row == ROW_B;
      assert f == V4;
    }
  }

  /** Nothing opposes the one rule of lane "a" for its own network. */
  lemma RuleIsUnopposed()
    ensures Unopposed(ETH_MAP, [LANE_A, ROW_B], LANE_A, Key(V4, HOME, ETH_A))
  {
    var k := Key(V4, HOME, ETH_A);
    assert !Covers(ROW_B, k);
    assert EthsOf(ETH_MAP, []) == [];
    assert !Serves(ETH_MAP, LANE_A, k) && !Serves(ETH_MAP, ROW_B, k);
    assert !Partner(LANE_A, k)(LANE_A) && !Partner(LANE_A, k)(ROW_B);
  }

  lemma CaptureAccepted(listing: set<Cidr> -> seq<Cidr>, cmds: seq<Command>)
    requires IsListing(listing) && ValidNode(CaptureNode())
    ensures IsRendered(listing, CaptureNode(), ETH_MAP, [], cmds) ==> Functional(cmds)
  {
    hide LaneRows, OwnPrefix, IsListing, ValidNode, IsRendered, Functional, Unopposed, FamilyConsistent;
    var node := CaptureNode();
    CaptureRows();
    OwnPrefixes(node);
    hide CaptureNode;
    CaptureFamilies();
    RuleIsUnopposed();
    Blocks();
    if IsRendered(listing, node, ETH_MAP, [], cmds) {
      RenderingAcceptedIff(listing, node, ETH_MAP, [], cmds);
    }
  }

  lemma CaptureFamilies()
    ensures FamilyConsistent([LANE_A, ROW_B])
  {
    forall row, f, d | row in [LANE_A, ROW_B] && d in LaneGroups(row, f)
      ensures d.ip.family == f
    {
      assert row == LANE_A || row == ROW_B;
    }
  }

  lemma ClaimOfB(listing: set<Cidr> -> seq<Cidr>)
    requires IsListing(listing)
    ensures CLAIM in FirstPerKey(SharedAndCross(listing, ETH_MAP, [LANE_A, ROW_B]))
  {
    hide SharedAndCross, FirstPerKey, FirstWith, SortDescending, FirstSuch, IsListing, Within;
    var rows, k := [LANE_A, ROW_B], Key(V4, NET, ETH_A);
    assert EthsOf(ETH_MAP, [A]) == [ETH_A] by {
      assert [A][1..] == [];
    }
    assert EthsOf(ETH_MAP, []) == [] && NET != DefaultOf(V4);
    assert Serves(ETH_MAP, ROW_B, k) && !Serves(ETH_MAP, LANE_A, k);
    hide Serves;
    assert AloneOn(rows, LANE_A);
    ClaimOnOwnInterface(listing, ETH_MAP, rows, LANE_A, k);
    var i := FirstSuchIsBest(rows, Serving(ETH_MAP, k));
    assert Serving(ETH_MAP, k)(rows[1]);
    KeptIsFirst(SharedAndCross(listing, ETH_MAP, rows), CLAIM);
  }

  lemma LaneTakesPacket(node: Node)
    requires ValidNode(node) && node == CaptureNode()
    ensures LaneTakes(node, ETH_MAP, LANE_A, PACKET)
  {
    hide Within, SourcePrefixes, ValidNode, OwnPrefix, Network, NormalizePrefix, Valid, CaptureNode, OnLinks;
    LinksOf(node);
    OnTwoLinks(node);
    OwnPrefixes(node);
    Blocks();
    HomeTakes(node, LANE_A);
  }

  /** Traffic from 10.9.0.0/24 is taken by any lane on interface "a" that routes it and is no uplink. */
  lemma HomeTakes(node: Node, row: LaneRow)
    requires ValidNode(node) && A in node.interfaces && SourcePrefixes(node.interfaces[A], V4, false) == [HOME]
    requires row.ifname == A && HOME in row.routes4 && row.kind != AccessUplink && Within(HOME, PACKET.src)
    ensures LaneTakes(node, ETH_MAP, row, PACKET)
  {
    hide Within, SourcePrefixes;
    assert HOME in SourcePrefixes(node.interfaces[A], V4, false);
    hide ValidNode;
    assert TakesOn(node, ETH_MAP, row, A, PACKET);
    hide TakesOn;
    assert SourcesOf(row)[0] == A;
  }

  lemma LaneAnswersPacket(node: Node)
    requires ValidNode(node)
    ensures TableAnswers(node, ETH_MAP, [LANE_A, ROW_B], 100, PACKET)
  {
    Blocks();
    hide Within, ValidNode, SourcePrefixes;
    assert ANYWHERE in LaneGroups(LANE_A, V4);
    assert LaneAnswers(node, ETH_MAP, LANE_A, PACKET) && LANE_A in [LANE_A, ROW_B];
  }

  /** Lane "a" takes the packet by its own network, and its default route answers. */
  lemma LaneCaptures(node: Node, raw: seq<RelationSelection.RawSelector>, main: Ip -> bool)
    requires ValidNode(node) && node == CaptureNode()
    ensures Captured(node, ETH_MAP, raw, [LANE_A, ROW_B], main, PACKET, 2000)
  {
    LaneTakesPacket(node);
    LaneAnswersPacket(node);
    hide CaptureNode, LaneTakes, TableAnswers, ValidNode;
    var rows := [LANE_A, ROW_B];
    assert LANE_A in rows && LANE_A.priority == 1000 && LANE_A.table == 100;
    assert ByLane(node, ETH_MAP, rows, PACKET, 2000);
  }

  /** The rules of the rendering: those of lane "a" and those of lane "b". */
  lemma TwoPriorities(listing: set<Cidr> -> seq<Cidr>, node: Node, c: Command)
    requires ValidNode(node) && IsListing(listing) && RuleOfCommand(c).Some?
    ensures c in LaneRendering(listing, node, ETH_MAP, [], [LANE_A, ROW_B]) ==>
              RuleOfCommand(c) in {Some((1000, Table(100))), Some((2000, Table(200)))}
  {
    hide SharedAndCross, FirstPerKey, Phase2, InLane, ValidNode, IsListing;
    var rows := [LANE_A, ROW_B];
    if c in LaneRendering(listing, node, ETH_MAP, [], rows) {
      if LaneRule(c).Some? {
        RenderedFromLanes(listing, node, ETH_MAP, [], rows, c);
        NoCrossRule(c);
      } else {
        assert Selecteds([]) == [];
        Phase2Members(listing, node, ETH_MAP, rows, |rows|, c);
        var i :| 0 <= i < |rows| && InLane(listing, node, ETH_MAP, rows[i], c);
        NotSuppressed(listing, node, rows[i], c);
      }
    }
  }

  lemma NoCrossRule(c: Command)
    ensures FromLanes([LANE_A, ROW_B], c) ==> RuleOfLane(LANE_A, c) || RuleOfLane(ROW_B, c)
  {
    forall us, ds | us in [LANE_A, ROW_B] && ds in [LANE_A, ROW_B]
      ensures !CrossRuleOf(us, ds, c)
    {
      assert "x"[0] != "y"[0];
    }
  }

  lemma NotSuppressed(listing: set<Cidr> -> seq<Cidr>, node: Node, row: LaneRow, c: Command)
    requires ValidNode(node) && IsListing(listing) && InLane(listing, node, ETH_MAP, row, c) && row.mainSuppress.None?
    ensures !c.MainSuppressed? && !c.Selected?
  {
    hide FamilyCommands, ValidNode, IsListing;
    LaneCommandsAtLanePriority(listing, node, ETH_MAP, row, V4);
    LaneCommandsAtLanePriority(listing, node, ETH_MAP, row, V6);
  }

  /**
   * The renderer and the validator accept this node. Lane "b" claims 10.0.0.0/24 at
   * priority 2000 for its table 200, and the claim would decide the packet; yet whatever
   * decides it is tried at priority 1000 and leads to table 100 of lane "a".
   */
  lemma SmallerLaneCaptures(listing: set<Cidr> -> seq<Cidr>, cmds: seq<Command>, main: Ip -> bool, k: nat)
    requires IsListing(listing)
    ensures ValidNode(CaptureNode()) && LaneRows(CaptureNode(), ETH_MAP) == Ok([LANE_A, ROW_B])
    ensures RelationSelection.Accepted(CaptureNode(), ETH_MAP, [], [])
    ensures IsRendered(listing, CaptureNode(), ETH_MAP, [], cmds) ==>
              && Functional(cmds)
              && ToRule(CLAIM) in cmds && Decides(cmds, main, ToRule(CLAIM), PACKET)
              && (DecidedBy(cmds, main, PACKET, |cmds|, k) ==> RuleOfCommand(cmds[k]) == Some((1000, Table(100))))
  {
    hide CaptureNode, LaneRows, LaneRendering, ValidNode, IsListing, DecidedBy, Decides, Functional, Captured, Matches;
    hide FirstPerKey, SharedAndCross;
    var node := CaptureNode();
    CaptureRows();
    if IsRendered(listing, node, ETH_MAP, [], cmds) {
      CaptureAccepted(listing, cmds);
      LaneCaptures(node, [], main);
      CaptureDecision(listing, node, cmds, main, k);
    }
  }

  lemma ClaimMatches()
    ensures Matches(ToRule(CLAIM), PACKET)
  {
    Blocks();
    hide Within;
  }

  lemma CaptureDecision(listing: set<Cidr> -> seq<Cidr>, node: Node, cmds: seq<Command>, main: Ip -> bool, k: nat)
    requires IsListing(listing) && ValidNode(node)
    requires Captured(node, ETH_MAP, [], [LANE_A, ROW_B], main, PACKET, 2000)
    ensures LaneRows(node, ETH_MAP) == Ok([LANE_A, ROW_B]) && IsRendered(listing, node, ETH_MAP, [], cmds) ==>
              && ToRule(CLAIM) in cmds && Decides(cmds, main, ToRule(CLAIM), PACKET)
              && (DecidedBy(cmds, main, PACKET, |cmds|, k) ==> RuleOfCommand(cmds[k]) == Some((1000, Table(100))))
  {
    hide LaneRows, LaneRendering, ValidNode, IsListing, HasRoute, Captured, Matches, FirstPerKey, SharedAndCross;
    if LaneRows(node, ETH_MAP) == Ok([LANE_A, ROW_B]) && IsRendered(listing, node, ETH_MAP, [], cmds) {
      var selectors, selected :|
        && RelationSelection.Accepted(node, ETH_MAP, [], selectors)
        && RelationSelection.RendersSelectors(selectors, selected)
        && cmds == LaneRendering(listing, node, ETH_MAP, selected, [LANE_A, ROW_B]);
      NothingSelected(node, selectors, selected);
      ClaimMatches();
      ClaimOfB(listing);
      ClaimDecides(listing, node, ETH_MAP, [], [LANE_A, ROW_B], main, PACKET, CLAIM);
      if DecidedBy(cmds, main, PACKET, |cmds|, k) {
        NotCapturedIff(listing, node, ETH_MAP, [], cmds, main, PACKET, CLAIM, k);
        TwoPriorities(listing, node, cmds[k]);
      }
    }
  }

  lemma NothingSelected(
      node: Node, selectors: seq<RelationSelection.Selector>, selected: seq<RelationSelection.SelectorRule>)
    requires RelationSelection.Accepted(node, ETH_MAP, [], selectors)
    requires RelationSelection.RendersSelectors(selectors, selected)
    ensures selected == []
  {
    if selected != [] {
      FirstIsMember(selected);
    }
  }

  lemma FirstIsMember<T>(xs: seq<T>)
    requires xs != []
    ensures xs[0] in xs
  {
  }

  // ------------------------------------------------------------- a pair of cross lanes

  /** One access: an uplink lane with 10.9.0.0/24, and an edge lane with 10.0.0.0/24. */
  const UPLINK := LaneRow(A, ETH_A, Some(Name("x")), AccessUplink, 100, 1000, None, [], map[HOME := [HOP_A]], map[])
  const EDGE := LaneRow(B, ETH_B, Some(Name("x")), AccessEdge, 200, 2000, None, [], map[NET := [HOP_B]], map[])

  lemma EdgePartner(k: Key)
    requires k == Key(V4, NET, ETH_A)
    ensures Partner(UPLINK, k)(EDGE) && !Partner(UPLINK, k)(UPLINK) && IsUpstream(UPLINK, Name("x"))
    ensures !Serves(ETH_MAP, UPLINK, k) && !Serves(ETH_MAP, EDGE, k)
  {
    assert EthsOf(ETH_MAP, []) == [] && NET != DefaultOf(V4) && NET in EDGE.routes4 && HOME in UPLINK.routes4;
  }

  lemma EdgeClaim(listing: set<Cidr> -> seq<Cidr>, k: Key)
    requires IsListing(listing) && k == Key(V4, NET, ETH_A)
    ensures FirstWith(SharedAndCross(listing, ETH_MAP, [UPLINK, EDGE]), k) == Some(DestRule(V4, NET, ETH_A, 1000, 200))
  {
    EdgePartner(k);
    hide SharedAndCross, FirstWith, SortDescending, FirstSuch, IsListing, Serves, Partner, IsUpstream;
    var rows := [UPLINK, EDGE];
    assert AloneOn(rows, UPLINK);
    ClaimOnOwnInterface(listing, ETH_MAP, rows, UPLINK, k);
    var none := FirstSuchIsBest(rows, Serving(ETH_MAP, k));
    var w := FirstSuchIsBest(rows, Partner(UPLINK, k));
    assert rows[1] == EDGE;
  }

  lemma OnlyUplinkSends(us: LaneRow, ds: LaneRow, k: Key)
    requires us in [UPLINK, EDGE] && ds in [UPLINK, EDGE] && us.eth == k.iif && SendsOn(us) && TakesFrom(us, k)(ds)
    ensures us == UPLINK && ds == EDGE && k == Key(V4, NET, ETH_A)
  {
  }

  lemma NeitherServes(k: Key)
    ensures !Serves(ETH_MAP, UPLINK, k) && !Serves(ETH_MAP, EDGE, k)
  {
  }

  /** Return traffic from the uplink to the edge's network is sent to the edge's table; nothing else is claimed. */
  lemma UplinkSendsToEdge(listing: set<Cidr> -> seq<Cidr>, r: DestRule)
    requires IsListing(listing)
    ensures r in FirstPerKey(SharedAndCross(listing, ETH_MAP, [UPLINK, EDGE]))
       <==> r == DestRule(V4, NET, ETH_A, 1000, 200)
  {
    hide SharedAndCross, FirstPerKey, FirstWith, IsListing, Serves, SendsOn, TakesFrom;
    var rows := [UPLINK, EDGE];
    NeitherServes(KeyOf(r));
    KeptIsFirst(SharedAndCross(listing, ETH_MAP, rows), r);
    assert AloneOn(rows, UPLINK) && AloneOn(rows, EDGE);
    if r in FirstPerKey(SharedAndCross(listing, ETH_MAP, rows)) {
      CrossRuleKinds(listing, ETH_MAP, rows, r);
      var us, ds :|
        && us in rows && us.eth == r.iif && SendsOn(us) && us.priority == r.priority
        && ds in rows && TakesFrom(us, KeyOf(r))(ds) && ds.table == r.table;
      OnlyUplinkSends(us, ds, KeyOf(r));
    }
    EdgeClaim(listing, Key(V4, NET, ETH_A));
  }
}
