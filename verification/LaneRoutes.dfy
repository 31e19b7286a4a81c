/**
 * Which routes of a node end up in the table of a policy lane, told in the fields of
 * routes, lanes and interfaces (`_policy_groups_for_lane`, `_route_matches_ingress` and
 * `_route_surface_for_lane` of clabgen/s88/CM/linux_policy_routes.py).
 */
module LaneRoutes {
  import opened Common
  import opened Sorting
  import opened Addressing
  import opened NodeModel
  import opened RouteVia
  import opened PolicyGroups

  // ----------------------------------------------------------------- in fields

  predicate IsDefaultRoute(r: Route) {
    r.dst.Some? && r.dst.value.len == 0 && r.dst.value.ip.value == 0
  }

  /** The lane of an interface; an interface without one has neither access nor uplink. */
  function LaneAt(iface: Iface): Lane {
    match iface.lane
    case Some(lane) => lane
    case None => Lane(None, None, {}, OtherLane)
  }

  /** A route's own lane, or else that of the interface it is listed on. */
  function LaneOfRoute(r: Route, iface: Iface): Lane {
    match r.lane
    case Some(lane) => lane
    case None => LaneAt(iface)
  }

  predicate HasUplink(lane: Lane, u: Name) {
    lane.uplink == Some(u) || u in lane.uplinks
  }

  ghost predicate ShareUplink(a: Lane, b: Lane) {
    exists u :: HasUplink(a, u) && HasUplink(b, u)
  }

  /**
   * A policy-only route of lane `l` may enter the table of lane `t`: it has the access of
   * `t` and uplinks that do not contradict each other; or it has no access, is a default
   * and shares an uplink; or `t` itself has no access, and they share an uplink.
   */
  ghost predicate MayEnter(t: Lane, l: Lane, r: Route) {
    || (t.access.Some? && l.access == t.access && (t.uplink.None? || l.uplink.None? || t.uplink == l.uplink))
    || (l.access.None? && IsDefaultRoute(r) && ShareUplink(t, l))
    || (t.access.None? && l.access.Some? && ShareUplink(t, l))
  }

  /** Mapped interface `m` has an address whose network holds the route's next hop. */
  predicate HoldsHop(node: Node, ethMap: EthMap, f: Family, r: Route, m: Name)
    requires ValidNode(node)
  {
    && m in node.interfaces && m in ethMap && Via(r, f).Some? && Addr(node.interfaces[m], f).Some?
    && InNetwork(Via(r, f).value, Addr(node.interfaces[m], f).value)
  }

  /** Interface `m` has the access and uplink of lane `l`, which names both. */
  predicate OnLane(node: Node, l: Lane, m: Name) {
    && l.access.Some? && l.uplink.Some? && m in node.interfaces
    && LaneAt(node.interfaces[m]).access == l.access && LaneAt(node.interfaces[m]).uplink == l.uplink
  }

  ghost predicate FirstOf(p: Name -> bool, m: Name) {
    p(m) && forall other | p(other) :: NameLe(m, other)
  }

  /**
   * The interface that a route listed on `n` leaves by: the first in name order whose
   * network holds the next hop; without such, the first on the route's lane, if it is
   * mapped; without either, `n`.
   */
  ghost predicate LeavesBy(node: Node, ethMap: EthMap, f: Family, n: Name, r: Route, l: Lane, m: Name)
    requires ValidNode(node)
  {
    if exists x :: HoldsHop(node, ethMap, f, r, x) then
      HoldsHop(node, ethMap, f, r, m) && forall x | HoldsHop(node, ethMap, f, r, x) :: NameLe(m, x)
    else if exists x :: OnLane(node, l, x) then
      OnLane(node, l, m) && m in ethMap && forall x | OnLane(node, l, x) :: NameLe(m, x)
    else m == n && n in node.interfaces && n in ethMap
  }

  /** The destination is the address, as written, of an interface of another access. */
  ghost predicate IsOthersAddress(node: Node, target: Name, dst: Cidr)
    requires target in node.interfaces
  {
    exists o ::
      && o in node.interfaces && o != target
      && LaneAt(node.interfaces[target]).access.Some? && LaneAt(node.interfaces[o]).access.Some?
      && LaneAt(node.interfaces[o]).access != LaneAt(node.interfaces[target]).access
      && (node.interfaces[o].addr4 == Some(dst) || node.interfaces[o].addr6 == Some(dst))
  }

  /** Route `r` of interface `n` is one the lane of `target` looks at. */
  ghost predicate Considered(node: Node, ethMap: EthMap, target: Name, f: Family, n: Name, r: Route)
    requires ValidNode(node) && target in node.interfaces
  {
    && n in node.interfaces && n in ethMap && r in Routes(node.interfaces[n], f) && r.dst.Some?
    && (if r.policyOnly then MayEnter(LaneAt(node.interfaces[target]), LaneOfRoute(r, node.interfaces[n]), r)
        else n == target)
  }

  /** A route that is connected and not policy-only goes out directly, on its own interface. */
  predicate IsDirect(r: Route) {
    !r.policyOnly && r.proto == ProtoConnected
  }

  /**
   * The interface an indirect route leaves by, for the lane of `target`: a default that is
   * not policy-only stays on its interface; of the others, those to an address of another
   * access leave by none.
   */
  ghost predicate Surface(node: Node, ethMap: EthMap, target: Name, f: Family, n: Name, r: Route, m: Name)
    requires ValidNode(node) && target in node.interfaces && n in node.interfaces && r.dst.Some?
  {
    if !r.policyOnly && IsDefaultRoute(r) then m == n
    else
      && !IsOthersAddress(node, target, r.dst.value)
      && LeavesBy(node, ethMap, f, n, r, LaneOfRoute(r, node.interfaces[n]), m)
  }

  /** Route `r` of interface `n` brings hop `h` to the lane of `target`. */
  ghost predicate Brings(node: Node, ethMap: EthMap, target: Name, f: Family, n: Name, r: Route, h: Hop)
    requires ValidNode(node) && target in node.interfaces
  {
    && Considered(node, ethMap, target, f, n, r)
    && if IsDirect(r) then h == Hop(None, ethMap[n])
       else exists m ::
         && Surface(node, ethMap, target, f, n, r, m) && m in node.interfaces && m in ethMap
         && h.via.Some? && h.eth == ethMap[m] && IsNextHop(node, node.interfaces[m], r, f, h.via.value)
  }

  /** It does so for the destination that `d` names. */
  ghost predicate BringsTo(
      node: Node, ethMap: EthMap, target: Name, f: Family, n: Name, r: Route, d: Cidr, h: Hop)
    requires ValidNode(node) && target in node.interfaces
  {
    Brings(node, ethMap, target, f, n, r, h) && NormalizePrefix(r.dst.value) == d
  }

  /** The target's own route `r` claims its destination: it is indirect, no default, and leaves by some interface. */
  ghost predicate Claiming(node: Node, ethMap: EthMap, target: Name, f: Family, r: Route)
    requires ValidNode(node) && target in node.interfaces
  {
    && Considered(node, ethMap, target, f, target, r) && !IsDirect(r) && !IsDefaultRoute(r)
    && exists m :: Surface(node, ethMap, target, f, target, r, m)
  }

  ghost predicate ClaimsFor(node: Node, ethMap: EthMap, target: Name, f: Family, r: Route, d: Cidr)
    requires ValidNode(node) && target in node.interfaces
  {
    Claiming(node, ethMap, target, f, r) && NormalizePrefix(r.dst.value) == d
  }

  ghost predicate Unclaimed(node: Node, ethMap: EthMap, target: Name, f: Family, d: Cidr)
    requires ValidNode(node) && target in node.interfaces
  {
    forall r :: !ClaimsFor(node, ethMap, target, f, r, d)
  }

  // --------------------------------------------------- what the compiler computes

  lemma MayEnterIff(t: Lane, l: Lane, r: Route)
    requires r.dst.Some?
    ensures RouteMatchesIngress(t, l, r.dst) <==> MayEnter(t, l, r)
  {
    var (ut, ul) := (LaneUplinks(t), LaneUplinks(l));
    assert forall u :: HasUplink(t, u) <==> u in ut;
    assert forall u :: HasUplink(l, u) <==> u in ul;
    assert ut * ul != {} <==> exists u :: u in ut && u in ul by {
      if u :| u in ut * ul { assert u in ut && u in ul; }
      if u :| u in ut && u in ul { assert u in ut * ul; }
    }
    DefaultIff(r.dst.value);
    if ut == {} {
      assert ut * ul == {};
    }
  }

  lemma DefaultIff(c: Cidr)
    ensures IsDefault(c) <==> c.len == 0 && c.ip.value == 0
  {
    assert c == Cidr(Ip(c.ip.family, c.ip.value), c.len);
    assert c.ip.family == V4 || c.ip.family == V6;
  }

  lemma {:induction false} FirstOnLink(
      node: Node, ethMap: EthMap, names: seq<Name>, f: Family, r: Route, m: Name)
    requires ValidNode(node) && StrictlySorted(NameLe, names) && Via(r, f).Some?
    requires forall n | n in names :: n in node.interfaces
    ensures IfaceOnLink(node, ethMap, names, Via(r, f).value, f) == Some(m)
       <==> && m in names && HoldsHop(node, ethMap, f, r, m)
            && forall x | x in names && HoldsHop(node, ethMap, f, r, x) :: NameLe(m, x)
    ensures IfaceOnLink(node, ethMap, names, Via(r, f).value, f).None?
       <==> forall x | x in names :: !HoldsHop(node, ethMap, f, r, x)
  {
    hide ValidNode, InNetwork;
    if names != [] {
      FirstOnLink(node, ethMap, names[1..], f, r, m);
      FirstComesFirst(names);
      hide StrictlySorted, NameLe;
      assert forall x :: x in names <==> x == names[0] || x in names[1..];
    }
  }

  lemma FirstComesFirst(names: seq<Name>)
    requires StrictlySorted(NameLe, names) && names != []
    ensures StrictlySorted(NameLe, names[1..])
    ensures forall x | x in names :: NameLe(names[0], x) && (x != names[0] ==> !NameLe(x, names[0]))
    ensures names == [names[0]] + names[1..] && names[0] !in names[1..]
  {
    NameLeTotal();
    hide NameLe;
  }

  lemma {:induction false} FirstOnLane(node: Node, names: seq<Name>, l: Lane, m: Name)
    requires StrictlySorted(NameLe, names) && l.access.Some? && l.uplink.Some?
    requires forall n | n in names :: n in node.interfaces
    ensures IfaceOfLane(node, names, l) == Some(m)
       <==> m in names && OnLane(node, l, m) && forall x | x in names && OnLane(node, l, x) :: NameLe(m, x)
    ensures IfaceOfLane(node, names, l).None? <==> forall x | x in names :: !OnLane(node, l, x)
  {
    if names != [] {
      FirstOnLane(node, names[1..], l, m);
      FirstComesFirst(names);
      hide StrictlySorted, NameLe;
      assert forall x :: x in names <==> x == names[0] || x in names[1..];
    }
  }

  lemma RouteSurfaceIff(node: Node, ethMap: EthMap, f: Family, n: Name, r: Route, l: Lane, m: Name)
    requires ValidNode(node) && n in node.interfaces && n in ethMap
    ensures RouteSurface(node, ethMap, n, l, r, f) == Some(m) <==> LeavesBy(node, ethMap, f, n, r, l, m)
  {
    hide IfaceOnLink, IfaceOfLane, StrictlySorted, NameLe, HoldsHop, OnLane, ValidNode;
    var names := SortedNames(node.interfaces.Keys);
    OnlyInterfaces(node, ethMap, f, r, l);
    if Via(r, f).Some? {
      FirstOnLink(node, ethMap, names, f, r, m);
    }
    if l.access.Some? && l.uplink.Some? {
      FirstOnLane(node, names, l, m);
    }
    if exists x :: HoldsHop(node, ethMap, f, r, x) {
      HolderIsMapped(node, ethMap, f, r, m);
      assert IfaceOnLink(node, ethMap, names, Via(r, f).value, f).Some?;
    } else if exists x :: OnLane(node, l, x) {
      assert IfaceOfLane(node, names, l).Some?;
    }
  }

  lemma OnlyInterfaces(node: Node, ethMap: EthMap, f: Family, r: Route, l: Lane)
    requires ValidNode(node)
    ensures forall x | HoldsHop(node, ethMap, f, r, x) :: x in node.interfaces && Via(r, f).Some?
    ensures forall x | OnLane(node, l, x) :: x in node.interfaces && l.access.Some? && l.uplink.Some?
  {
  }

  lemma HolderIsMapped(node: Node, ethMap: EthMap, f: Family, r: Route, m: Name)
    requires ValidNode(node)
    ensures HoldsHop(node, ethMap, f, r, m) ==> m in ethMap
  {
  }

  lemma OthersAddressIff(node: Node, target: Name, dst: Cidr)
    requires target in node.interfaces
    ensures dst in ForeignAddrs(node, target) <==> IsOthersAddress(node, target, dst)
  {
    if o :|
      && o in node.interfaces && o != target
      && LaneAt(node.interfaces[target]).access.Some? && LaneAt(node.interfaces[o]).access.Some?
      && LaneAt(node.interfaces[o]).access != LaneAt(node.interfaces[target]).access
      && (node.interfaces[o].addr4 == Some(dst) || node.interfaces[o].addr6 == Some(dst))
    {
      assert node.interfaces[o].addr4.Some? ==> node.interfaces[o].addr4.value in ForeignAddrs(node, target);
      assert node.interfaces[o].addr6.Some? ==> node.interfaces[o].addr6.value in ForeignAddrs(node, target);
    }
  }

  /** An event of a route is exactly what the route's fields say. */
  ghost predicate Describes(node: Node, ethMap: EthMap, target: Name, f: Family, n: Name, r: Route, e: Event)
    requires ValidNode(node) && target in node.interfaces
  {
    if !Considered(node, ethMap, target, f, n, r) then e == Nothing
    else if IsDirect(r) then e == Connected(r.dst.value, Hop(None, ethMap[n]))
    else if !exists m :: Surface(node, ethMap, target, f, n, r, m) then e == Nothing
    else
      && e.Offer? && e.own == (n == target) && e.dst == r.dst.value
      && forall h :: e.hop == Some(h) <==> Brings(node, ethMap, target, f, n, r, h)
  }

  lemma ClassifyDescribes(node: Node, ethMap: EthMap, target: Name, f: Family, n: Name, r: Route)
    requires ValidNode(node) && target in node.interfaces && n in node.interfaces && n in ethMap
    requires r in Routes(node.interfaces[n], f)
    ensures Describes(node, ethMap, target, f, n, r, Classify(node, ethMap, target, f, n, r))
  {
    hide ValidNode, RouteMatchesIngress, MayEnter, RouteSurface, LeavesBy, ForeignAddrs, IsOthersAddress, EffectiveVia;
    hide IsNextHop;
    if r.dst.Some? {
      MayEnterIff(LaneAt(node.interfaces[target]), LaneOfRoute(r, node.interfaces[n]), r);
      DefaultIff(r.dst.value);
      OthersAddressIff(node, target, r.dst.value);
      OfferDescribes(node, ethMap, target, f, n, r);
    }
  }

  /** The interface an indirect route leaves by, as the compiler finds it. */
  function SurfaceOf(node: Node, ethMap: EthMap, target: Name, f: Family, n: Name, r: Route): Option<Name>
    requires ValidNode(node) && target in node.interfaces && n in node.interfaces && n in ethMap && r.dst.Some?
  {
    if !r.policyOnly && IsDefault(r.dst.value) then Some(n)
    else if r.dst.value in ForeignAddrs(node, target) then None
    else RouteSurface(node, ethMap, n, RouteLane(r, node.interfaces[n]), r, f)
  }

  lemma SurfaceIff(node: Node, ethMap: EthMap, target: Name, f: Family, n: Name, r: Route)
    requires ValidNode(node) && target in node.interfaces && n in node.interfaces && n in ethMap && r.dst.Some?
    ensures forall m :: SurfaceOf(node, ethMap, target, f, n, r) == Some(m)
                   <==> Surface(node, ethMap, target, f, n, r, m)
    ensures forall m | Surface(node, ethMap, target, f, n, r, m) :: m in node.interfaces && m in ethMap
  {
    hide ValidNode, RouteSurface, LeavesBy, ForeignAddrs, IsOthersAddress;
    DefaultIff(r.dst.value);
    OthersAddressIff(node, target, r.dst.value);
    forall m
      ensures RouteSurface(node, ethMap, n, LaneOfRoute(r, node.interfaces[n]), r, f) == Some(m)
         <==> LeavesBy(node, ethMap, f, n, r, LaneOfRoute(r, node.interfaces[n]), m)
    {
      RouteSurfaceIff(node, ethMap, f, n, r, LaneOfRoute(r, node.interfaces[n]), m);
    }
  }

  lemma OfferDescribes(node: Node, ethMap: EthMap, target: Name, f: Family, n: Name, r: Route)
    requires ValidNode(node) && target in node.interfaces && n in node.interfaces && n in ethMap && r.dst.Some?
    ensures (var surface := SurfaceOf(node, ethMap, target, f, n, r);
             && (surface.Some? <==> exists m :: Surface(node, ethMap, target, f, n, r, m))
             && (surface.Some? ==> surface.value in node.interfaces && surface.value in ethMap)
             && (Considered(node, ethMap, target, f, n, r) && !IsDirect(r) && surface.Some? ==>
                   (var via := EffectiveVia(node, node.interfaces[surface.value], r, f);
                    forall h :: Brings(node, ethMap, target, f, n, r, h)
                           <==> via.Some? && h == Hop(via, ethMap[surface.value]))))
  {
    hide EffectiveVia, IsNextHop, SurfaceOf, Surface, MayEnter;
    SurfaceIff(node, ethMap, target, f, n, r);
    var surface := SurfaceOf(node, ethMap, target, f, n, r);
    if surface.Some? {
      var m := surface.value;
      assert Surface(node, ethMap, target, f, n, r, m);
      forall hop
        ensures EffectiveVia(node, node.interfaces[m], r, f) == Some(hop)
           <==> IsNextHop(node, node.interfaces[m], r, f, hop)
      {
        NextHopIff(node, node.interfaces[m], r, f, hop);
      }
    }
  }

  /** What an event holds for `d`, and whether it claims `d`, in the fields of its route. */
  lemma EventMeaning(node: Node, ethMap: EthMap, target: Name, f: Family, n: Name, r: Route, d: Cidr, h: Hop)
    requires ValidNode(node) && target in node.interfaces && n in node.interfaces && n in ethMap
    requires r in Routes(node.interfaces[n], f)
    ensures (var e := Classify(node, ethMap, target, f, n, r);
             && (HopFor(e, d, false) == Some(h) <==> BringsTo(node, ethMap, target, f, n, r, d, h))
             && (HopFor(e, d, true) == Some(h)
                 <==> BringsTo(node, ethMap, target, f, n, r, d, h) && (n == target || r.dst.value != d))
             && (Claims(e, d) <==> n == target && ClaimsFor(node, ethMap, target, f, r, d)))
  {
    hide Classify, Surface, IsNextHop, MayEnter, NormalizePrefix, ValidNode;
    ClassifyDescribes(node, ethMap, target, f, n, r);
    if r.dst.Some? {
      DefaultIff(r.dst.value);
    }
  }

  /**
   * Without a claim of the target, a hop is in the lane's group for `d` exactly when some
   * route to `d` brings it: one of the target's own that is not policy-only, or a
   * policy-only one that may enter the lane.
   */
  lemma GroupHoldsIff(node: Node, ethMap: EthMap, target: Name, f: Family, d: Cidr, h: Hop)
    requires ValidNode(node) && target in node.interfaces && Unclaimed(node, ethMap, target, f, d)
    ensures h in HopsOf(GroupsOf(node, ethMap, target, f), d)
       <==> exists n, r :: BringsTo(node, ethMap, target, f, n, r, d, h)
  {
    hide Classify, LaneEvents, ApplyAll, FirstClaim, HopsOf, DistinctHops, ClaimsFor, ValidNode, BringsTo;
    hide HopFor, Claims;
    var events := LaneEvents(node, ethMap, target, f);
    GroupsAreFinalHops(events, d);
    forall e | e in events
      ensures !Claims(e, d)
      ensures HopFor(e, d, false) == Some(h) ==>
                exists n, r :: BringsTo(node, ethMap, target, f, n, r, d, h)
    {
      var n, j := SourceOf(node, ethMap, target, f, e);
      EventMeaning(node, ethMap, target, f, n, Routes(node.interfaces[n], f)[j], d, h);
    }
    FirstClaimIs(events, d, |events|);
    assert events[0..] == events;
    DistinctHopsMembers(events, d, false);
    if n, r :| BringsTo(node, ethMap, target, f, n, r, d, h) {
      BringsIsListed(node, ethMap, target, f, n, r, d, h);
      var e := Classify(node, ethMap, target, f, n, r);
      EventMeaning(node, ethMap, target, f, n, r, d, h);
      EventIsListed(node, ethMap, target, f, n, r);
    }
  }

  /** The first claim is the only one that no other precedes. */
  lemma FirstClaimIs(events: seq<Event>, d: Cidr, i: nat)
    requires i <= |events| && (i < |events| ==> Claims(events[i], d))
    requires forall k | 0 <= k < i :: !Claims(events[k], d)
    ensures FirstClaim(events, d) == i
  {
    hide Claims;
    var first := FirstClaim(events, d);
  }

  lemma BringsIsListed(node: Node, ethMap: EthMap, target: Name, f: Family, n: Name, r: Route, d: Cidr, h: Hop)
    requires ValidNode(node) && target in node.interfaces && BringsTo(node, ethMap, target, f, n, r, d, h)
    ensures n in node.interfaces && n in ethMap && r in Routes(node.interfaces[n], f) && r.dst.Some?
  {
  }

  lemma EventIsListed(node: Node, ethMap: EthMap, target: Name, f: Family, n: Name, r: Route)
    requires ValidNode(node) && target in node.interfaces && n in node.interfaces && n in ethMap
    requires r in Routes(node.interfaces[n], f)
    ensures Classify(node, ethMap, target, f, n, r) in LaneEvents(node, ethMap, target, f)
  {
    hide Classify, Events, ValidNode;
    var names := SortedNames(node.interfaces.Keys);
    var i :| 0 <= i < |names| && names[i] == n;
    var j :| 0 <= j < |Routes(node.interfaces[n], f)| && Routes(node.interfaces[n], f)[j] == r;
    var e := Classify(node, ethMap, target, f, n, r);
    assert ComesFrom(node, ethMap, target, f, e, names[i], j);
    EventSource(node, ethMap, target, f, names, |names|, e);
  }

  // --------------------------------------------------- destinations the target claims

  lemma {:induction false} IfaceEventAt(
      node: Node, ethMap: EthMap, target: Name, f: Family, ifname: Name, count: nat, j: nat)
    requires ValidNode(node) && target in node.interfaces && ifname in node.interfaces && ifname in ethMap
    requires j < count <= |Routes(node.interfaces[ifname], f)|
    ensures |EventsOfIface(node, ethMap, target, f, ifname, count)| == count
    ensures EventsOfIface(node, ethMap, target, f, ifname, count)[j]
         == Classify(node, ethMap, target, f, ifname, Routes(node.interfaces[ifname], f)[j])
    decreases count
  {
    hide Classify, ValidNode;
    IfaceEventCount(node, ethMap, target, f, ifname, count - 1);
    if j < count - 1 {
      IfaceEventAt(node, ethMap, target, f, ifname, count - 1, j);
    }
  }

  lemma {:induction false} IfaceEventCount(
      node: Node, ethMap: EthMap, target: Name, f: Family, ifname: Name, count: nat)
    requires ValidNode(node) && target in node.interfaces && ifname in node.interfaces && ifname in ethMap
    requires count <= |Routes(node.interfaces[ifname], f)|
    ensures |EventsOfIface(node, ethMap, target, f, ifname, count)| == count
    decreases count
  {
    hide Classify, ValidNode;
    if count > 0 {
      IfaceEventCount(node, ethMap, target, f, ifname, count - 1);
    }
  }

  /** Later interfaces only add events behind, and those are of their routes. */
  lemma {:induction false} LaterEvents(
      node: Node, ethMap: EthMap, target: Name, f: Family, names: seq<Name>, i: nat, j: nat)
    requires ValidNode(node) && target in node.interfaces && forall n | n in names :: n in node.interfaces
    requires i <= j <= |names|
    ensures Events(node, ethMap, target, f, names, i) <= Events(node, ethMap, target, f, names, j)
    ensures forall e | e in Events(node, ethMap, target, f, names, j)[|Events(node, ethMap, target, f, names, i)|..] ::
              exists k: nat, a: nat :: i <= k < j && ComesFrom(node, ethMap, target, f, e, names[k], a)
    ensures forall k: nat, r | i <= k < j && names[k] in ethMap && r in Routes(node.interfaces[names[k]], f) ::
              Classify(node, ethMap, target, f, names[k], r)
              in Events(node, ethMap, target, f, names, j)[|Events(node, ethMap, target, f, names, i)|..]
    decreases j
  {
    hide Classify, EventsOfIface, ValidNode;
    if i < j {
      LaterEvents(node, ethMap, target, f, names, i, j - 1);
      var (first, before) := (Events(node, ethMap, target, f, names, i), Events(node, ethMap, target, f, names, j - 1));
      var (all, last) := (Events(node, ethMap, target, f, names, j), names[j - 1]);
      if last in ethMap {
        var count := |Routes(node.interfaces[last], f)|;
        var own := EventsOfIface(node, ethMap, target, f, last, count);
        assert all[|first|..] == before[|first|..] + own;
        forall e | e in own
          ensures exists a: nat :: ComesFrom(node, ethMap, target, f, e, last, a)
        {
          IfaceEventSource(node, ethMap, target, f, last, count, e);
        }
        forall r | r in Routes(node.interfaces[last], f)
          ensures Classify(node, ethMap, target, f, last, r) in own
        {
          var a :| 0 <= a < count && Routes(node.interfaces[last], f)[a] == r;
          var e := Classify(node, ethMap, target, f, last, r);
          assert ComesFrom(node, ethMap, target, f, e, last, a);
          IfaceEventSource(node, ethMap, target, f, last, count, e);
        }
      }
    }
  }

  /** The lane's events around those of the target itself. */
  lemma EventsAround(node: Node, ethMap: EthMap, target: Name, f: Family) returns (pre: seq<Event>, post: seq<Event>)
    requires ValidNode(node) && target in node.interfaces && target in ethMap
    ensures (var own := EventsOfIface(node, ethMap, target, f, target, |Routes(node.interfaces[target], f)|);
             LaneEvents(node, ethMap, target, f) == pre + own + post)
    ensures forall e | e in pre :: exists n: Name, a: nat :: n != target && ComesFrom(node, ethMap, target, f, e, n, a)
    ensures forall e :: e in post <==>
              exists n: Name, a: nat :: n != target && NameLe(target, n) && ComesFrom(node, ethMap, target, f, e, n, a)
  {
    hide Classify, EventsOfIface, ValidNode, NameLe, ComesFrom, StrictlySorted;
    var names := SortedNames(node.interfaces.Keys);
    var t :| 0 <= t < |names| && names[t] == target;
    pre := Events(node, ethMap, target, f, names, t);
    var upTo := Events(node, ethMap, target, f, names, t + 1);
    var all := Events(node, ethMap, target, f, names, |names|);
    LaterEvents(node, ethMap, target, f, names, t + 1, |names|);
    post := all[|upTo|..];
    hide Events;
    NamesAround(names, t);
    EventsBefore(node, ethMap, target, f, names, t, pre);
    EventsBehind(node, ethMap, target, f, names, t, post);
  }

  lemma EventsBefore(node: Node, ethMap: EthMap, target: Name, f: Family, names: seq<Name>, t: nat, pre: seq<Event>)
    requires ValidNode(node) && target in node.interfaces && forall n | n in names :: n in node.interfaces
    requires t < |names| && pre == Events(node, ethMap, target, f, names, t)
    requires forall k | 0 <= k < |names| :: k != t ==> names[k] != target
    ensures forall e | e in pre :: exists n: Name, a: nat :: n != target && ComesFrom(node, ethMap, target, f, e, n, a)
  {
    hide Events, ComesFrom, ValidNode;
    forall e | e in pre
      ensures exists n: Name, a: nat :: n != target && ComesFrom(node, ethMap, target, f, e, n, a)
    {
      EventSource(node, ethMap, target, f, names, t, e);
    }
  }

  lemma EventsBehind(node: Node, ethMap: EthMap, target: Name, f: Family, names: seq<Name>, t: nat, post: seq<Event>)
    requires ValidNode(node) && target in node.interfaces && t < |names| && target == names[t]
    requires forall n :: n in names <==> n in node.interfaces
    requires forall k | 0 <= k < |names| :: k != t ==> names[k] != target
    requires forall k | 0 <= k < |names| :: NameLe(target, names[k]) <==> t <= k
    requires forall e | e in post :: exists k: nat, a: nat ::
               t + 1 <= k < |names| && ComesFrom(node, ethMap, target, f, e, names[k], a)
    requires forall k: nat, r |
               t + 1 <= k < |names| && names[k] in ethMap && r in Routes(node.interfaces[names[k]], f) ::
               Classify(node, ethMap, target, f, names[k], r) in post
    ensures forall e :: e in post <==>
              exists n: Name, a: nat :: n != target && NameLe(target, n) && ComesFrom(node, ethMap, target, f, e, n, a)
  {
    hide Classify, NameLe, ValidNode;
    forall e
      ensures e in post <==>
                exists n: Name, a: nat ::
                  n != target && NameLe(target, n) && ComesFrom(node, ethMap, target, f, e, n, a)
    {
      if n: Name, a: nat :| n != target && NameLe(target, n) && ComesFrom(node, ethMap, target, f, e, n, a) {
        var k :| 0 <= k < |names| && names[k] == n;
        assert Routes(node.interfaces[n], f)[a] in Routes(node.interfaces[n], f);
      }
    }
  }

  /** In a strictly sorted list the names behind a position are exactly the greater ones. */
  lemma NamesAround(names: seq<Name>, t: nat)
    requires StrictlySorted(NameLe, names) && t < |names|
    ensures forall k | 0 <= k < |names| :: k != t ==> names[k] != names[t]
    ensures forall k | 0 <= k < |names| :: NameLe(names[t], names[k]) <==> t <= k
  {
    NameLeTotal();
    hide NameLe;
  }

  /**
   * Once the target's route number `c` is the first to claim `d`, the group holds exactly
   * the hops of the target's own routes from `c` on, and of routes of interfaces after the
   * target whose destination is spelled differently.
   */
  lemma ClaimedGroupIff(node: Node, ethMap: EthMap, target: Name, f: Family, d: Cidr, c: nat, h: Hop)
    requires ValidNode(node) && target in node.interfaces && c < |Routes(node.interfaces[target], f)|
    requires ClaimsFor(node, ethMap, target, f, Routes(node.interfaces[target], f)[c], d)
    requires forall j | 0 <= j < c :: !ClaimsFor(node, ethMap, target, f, Routes(node.interfaces[target], f)[j], d)
    ensures h in HopsOf(GroupsOf(node, ethMap, target, f), d)
       <==> || (exists j :: c <= j < |Routes(node.interfaces[target], f)|
                            && BringsTo(node, ethMap, target, f, target, Routes(node.interfaces[target], f)[j], d, h))
            || (exists n, r: Route :: n != target && NameLe(target, n) && r.dst != Some(d)
                               && BringsTo(node, ethMap, target, f, n, r, d, h))
  {
    ClaimerIsMapped(node, ethMap, target, f, d, c);
    hide LaneEvents, ApplyAll, HopsOf, ClaimsFor, ValidNode, BringsTo, NameLe, Claims, EventsOfIface, ComesFrom, Held;
    var routes := Routes(node.interfaces[target], f);
    var own := EventsOfIface(node, ethMap, target, f, target, |routes|);
    var pre, post := EventsAround(node, ethMap, target, f);
    OwnEvents(node, ethMap, target, f, d, c, own, h);
    PreEvents(node, ethMap, target, f, d, pre);
    ClaimedEvents(pre, own, post, d, c, h);
    PostEvents(node, ethMap, target, f, d, post, h);
  }

  lemma PreEvents(node: Node, ethMap: EthMap, target: Name, f: Family, d: Cidr, pre: seq<Event>)
    requires ValidNode(node) && target in node.interfaces
    requires forall e | e in pre :: exists n: Name, a: nat :: n != target && ComesFrom(node, ethMap, target, f, e, n, a)
    ensures forall e | e in pre :: !Claims(e, d)
  {
    hide Claims, ValidNode, ClaimsFor, HopFor, BringsTo, Classify;
    forall e | e in pre
      ensures !Claims(e, d)
    {
      var n: Name, a: nat :| n != target && ComesFrom(node, ethMap, target, f, e, n, a);
      EventMeaning(node, ethMap, target, f, n, Routes(node.interfaces[n], f)[a], d, Hop(None, n));
    }
  }

  lemma ClaimedEvents(pre: seq<Event>, own: seq<Event>, post: seq<Event>, d: Cidr, c: nat, h: Hop)
    requires (forall e | e in pre :: !Claims(e, d)) && c < |own| && Claims(own[c], d)
    requires forall j | 0 <= j < c :: !Claims(own[j], d)
    ensures h in HopsOf(ApplyAll(pre + own + post).groups, d)
       <==> Held(own[c..], d, true, h) || Held(post, d, true, h)
  {
    hide Claims, HopsOf, ApplyAll, FirstClaim, DistinctHops, Held;
    var events := pre + own + post;
    FirstClaimIs(events, d, |pre| + c);
    GroupsAreFinalHops(events, d);
    assert events[|pre| + c..] == own[c..] + post;
    DistinctHopsMembers(own[c..] + post, d, true);
    HeldByParts(own[c..], post, d, h);
  }

  lemma ClaimerIsMapped(node: Node, ethMap: EthMap, target: Name, f: Family, d: Cidr, c: nat)
    requires ValidNode(node) && target in node.interfaces && c < |Routes(node.interfaces[target], f)|
    requires ClaimsFor(node, ethMap, target, f, Routes(node.interfaces[target], f)[c], d)
    ensures target in ethMap
  {
    hide Surface, MayEnter;
  }

  lemma HeldByParts(a: seq<Event>, b: seq<Event>, d: Cidr, h: Hop)
    ensures Held(a + b, d, true, h) <==> Held(a, d, true, h) || Held(b, d, true, h)
  {
    hide HopFor;
    assert forall e :: e in a + b <==> e in a || e in b;
  }

  lemma OwnEvents(
      node: Node, ethMap: EthMap, target: Name, f: Family, d: Cidr, c: nat, own: seq<Event>, h: Hop)
    requires ValidNode(node) && target in node.interfaces && target in ethMap
    requires own == EventsOfIface(node, ethMap, target, f, target, |Routes(node.interfaces[target], f)|)
    requires c < |Routes(node.interfaces[target], f)|
    ensures |own| == |Routes(node.interfaces[target], f)|
    ensures forall j | 0 <= j < |own| ::
              Claims(own[j], d) <==> ClaimsFor(node, ethMap, target, f, Routes(node.interfaces[target], f)[j], d)
    ensures Held(own[c..], d, true, h)
       <==> exists j :: c <= j < |own|
                        && BringsTo(node, ethMap, target, f, target, Routes(node.interfaces[target], f)[j], d, h)
  {
    hide Classify, ClaimsFor, ValidNode, BringsTo, HopFor, Claims, EventsOfIface;
    var routes := Routes(node.interfaces[target], f);
    IfaceEventCount(node, ethMap, target, f, target, |routes|);
    forall j: nat | j < |own|
      ensures own[j] == Classify(node, ethMap, target, f, target, routes[j])
      ensures Claims(own[j], d) <==> ClaimsFor(node, ethMap, target, f, routes[j], d)
      ensures HopFor(own[j], d, true) == Some(h) <==> BringsTo(node, ethMap, target, f, target, routes[j], d, h)
    {
      IfaceEventAt(node, ethMap, target, f, target, |routes|, j);
      EventMeaning(node, ethMap, target, f, target, routes[j], d, h);
    }
    HeldFrom(own, c, d, h);
  }

  lemma HeldFrom(events: seq<Event>, c: nat, d: Cidr, h: Hop)
    requires c <= |events|
    ensures Held(events[c..], d, true, h) <==> exists j :: c <= j < |events| && HopFor(events[j], d, true) == Some(h)
  {
    hide HopFor;
    if e :| e in events[c..] && HopFor(e, d, true) == Some(h) {
      var k :| 0 <= k < |events[c..]| && events[c..][k] == e;
      assert events[c + k] == e;
    }
    if j :| c <= j < |events| && HopFor(events[j], d, true) == Some(h) {
      assert events[c..][j - c] == events[j];
    }
  }

  lemma PostEvents(node: Node, ethMap: EthMap, target: Name, f: Family, d: Cidr, post: seq<Event>, h: Hop)
    requires ValidNode(node) && target in node.interfaces
    requires forall e :: e in post <==>
               exists n: Name, a: nat :: n != target && NameLe(target, n) && ComesFrom(node, ethMap, target, f, e, n, a)
    ensures Held(post, d, true, h)
       <==> exists n, r: Route :: n != target && NameLe(target, n) && r.dst != Some(d)
                           && BringsTo(node, ethMap, target, f, n, r, d, h)
  {
    hide Classify, ValidNode, BringsTo, HopFor, NameLe;
    if e :| e in post && HopFor(e, d, true) == Some(h) {
      var n: Name, a: nat :| n != target && NameLe(target, n) && ComesFrom(node, ethMap, target, f, e, n, a);
      var r := Routes(node.interfaces[n], f)[a];
      EventMeaning(node, ethMap, target, f, n, r, d, h);
      BringsIsListed(node, ethMap, target, f, n, r, d, h);
    }
    if n, r: Route :| n != target && NameLe(target, n) && r.dst != Some(d)
                      && BringsTo(node, ethMap, target, f, n, r, d, h)
    {
      BringsIsListed(node, ethMap, target, f, n, r, d, h);
      EventMeaning(node, ethMap, target, f, n, r, d, h);
      var a :| 0 <= a < |Routes(node.interfaces[n], f)| && Routes(node.interfaces[n], f)[a] == r;
      var e := Classify(node, ethMap, target, f, n, r);
      assert ComesFrom(node, ethMap, target, f, e, n, a);
    }
  }
}
