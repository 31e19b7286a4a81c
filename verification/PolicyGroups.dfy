/**
 * The route groups of one policy lane: `_policy_groups_for_lane` of
 * clabgen/s88/CM/linux_policy_routes.py, once per address family.  Interfaces are
 * visited in name order; routes of the target interface evict and then shut out
 * what other interfaces offered for the same destination.
 */
module PolicyGroups {
  import opened Arithmetic
  import opened Common
  import opened Sorting
  import opened Addressing
  import opened NodeModel
  import opened RouteVia

  datatype Hop = Hop(via: Option<Ip>, eth: Name)

  type Groups = map<Cidr, seq<Hop>>

  type EthMap = map<Name, Name>

  // ---------------------------------------------------------------- lane matching

  function LaneUplinks(lane: Lane): set<Name> {
    lane.uplinks + (if lane.uplink.Some? then {lane.uplink.value} else {})
  }

  predicate SameUplink(left: Lane, right: Lane) {
    LaneUplinks(left) * LaneUplinks(right) != {}
  }

  predicate DefaultDst(dst: Option<Cidr>) {
    dst.Some? && IsDefault(dst.value)
  }

  predicate RouteMatchesIngress(ingress: Lane, route: Lane, dst: Option<Cidr>) {
    if ingress.access.None? then
      if LaneUplinks(ingress) == {} then false
      else if route.access.None? then DefaultDst(dst) && SameUplink(ingress, route)
      else SameUplink(ingress, route)
    else if route.access.None? then DefaultDst(dst) && SameUplink(ingress, route)
    else if route.access != ingress.access then false
    else ingress.uplink.None? || route.uplink.None? || ingress.uplink == route.uplink
  }

  function IfaceLane(iface: Iface): Lane {
    if iface.lane.Some? then iface.lane.value else NO_LANE
  }

  function RouteLane(route: Route, iface: Iface): Lane {
    if route.lane.Some? then route.lane.value else IfaceLane(iface)
  }

  // ----------------------------------------------------------- where a route leaves

  function IfaceOnLink(node: Node, ethMap: EthMap, names: seq<Name>, via: Ip, f: Family): (r: Option<Name>)
    requires ValidNode(node) && forall n | n in names :: n in node.interfaces
    ensures r.Some? ==> r.value in node.interfaces && r.value in ethMap
  {
    if names == [] then None
    else if names[0] in ethMap && SameSubnet(Some(via), Addr(node.interfaces[names[0]], f)) then Some(names[0])
    else IfaceOnLink(node, ethMap, names[1..], via, f)
  }

  function IfaceOfLane(node: Node, names: seq<Name>, lane: Lane): (r: Option<Name>)
    requires forall n | n in names :: n in node.interfaces
    ensures r.Some? ==> r.value in node.interfaces
  {
    if names == [] then None
    else if IfaceLane(node.interfaces[names[0]]).access == lane.access
            && IfaceLane(node.interfaces[names[0]]).uplink == lane.uplink then Some(names[0])
    else IfaceOfLane(node, names[1..], lane)
  }

  /** The interface a route is rendered on: the one its next hop is on, else its lane's, else `fallback`. */
  function RouteSurface(node: Node, ethMap: EthMap, fallback: Name, lane: Lane, route: Route, f: Family)
      : (r: Option<Name>)
    requires ValidNode(node)
    ensures r.Some? ==> r.value in node.interfaces && r.value in ethMap
  {
    var names := SortedNames(node.interfaces.Keys);
    var onLink := if Via(route, f).Some? then IfaceOnLink(node, ethMap, names, Via(route, f).value, f) else None;
    if onLink.Some? then onLink
    else
      var byLane := if lane.access.Some? && lane.uplink.Some? then IfaceOfLane(node, names, lane) else None;
      if byLane.Some? then (if byLane.value in ethMap then byLane else None)
      else if fallback in node.interfaces && fallback in ethMap then Some(fallback)
      else None
  }

  /** Addresses of the interfaces whose access differs from the target's. */
  function ForeignAddrs(node: Node, target: Name): set<Cidr>
    requires target in node.interfaces
  {
    var access := IfaceLane(node.interfaces[target]).access;
    var foreign := set n | n in node.interfaces && n != target && access.Some?
                           && IfaceLane(node.interfaces[n]).access.Some?
                           && IfaceLane(node.interfaces[n]).access != access;
    (set n | n in foreign && node.interfaces[n].addr4.Some? :: node.interfaces[n].addr4.value)
    + (set n | n in foreign && node.interfaces[n].addr6.Some? :: node.interfaces[n].addr6.value)
  }

  // ------------------------------------------------- what one route brings, statelessly

  /**
   * What a route of an interface brings to the lane: nothing, a connected route, or
   * an offer of a next hop (absent when no effective one exists).
   */
  datatype Event = Nothing | Connected(dst: Cidr, direct: Hop) | Offer(own: bool, dst: Cidr, hop: Option<Hop>)

  function Classify(node: Node, ethMap: EthMap, target: Name, f: Family, ifname: Name, route: Route): Event
    requires ValidNode(node) && target in node.interfaces && ifname in node.interfaces && ifname in ethMap
  {
    var iface := node.interfaces[ifname];
    var own := ifname == target;
    var lane := RouteLane(route, iface);
    if !route.policyOnly && !own then Nothing
    else if route.policyOnly && !RouteMatchesIngress(IfaceLane(node.interfaces[target]), lane, route.dst) then Nothing
    else if route.dst.None? then Nothing
    else if !route.policyOnly && route.proto == ProtoConnected then
      Connected(route.dst.value, Hop(None, ethMap[ifname]))
    else
      var ownDefault := !route.policyOnly && DefaultDst(route.dst);
      if !ownDefault && route.dst.value in ForeignAddrs(node, target) then Nothing
      else
        var surface := if ownDefault then Some(ifname) else RouteSurface(node, ethMap, ifname, lane, route, f);
        if surface.None? then Nothing
        else
          var via := EffectiveVia(node, node.interfaces[surface.value], route, f);
          Offer(own, route.dst.value, if via.None? then None else Some(Hop(via, ethMap[surface.value])))
  }

  /** The events of the first `count` routes of an interface. */
  function EventsOfIface(node: Node, ethMap: EthMap, target: Name, f: Family, ifname: Name, count: nat): seq<Event>
    requires ValidNode(node) && target in node.interfaces && ifname in node.interfaces && ifname in ethMap
    requires count <= |Routes(node.interfaces[ifname], f)|
  {
    if count == 0 then []
    else EventsOfIface(node, ethMap, target, f, ifname, count - 1)
         + [Classify(node, ethMap, target, f, ifname, Routes(node.interfaces[ifname], f)[count - 1])]
  }

  /** All events of the first `count` interfaces, in the order the source meets them. */
  function Events(node: Node, ethMap: EthMap, target: Name, f: Family, names: seq<Name>, count: nat): seq<Event>
    requires ValidNode(node) && target in node.interfaces && forall n | n in names :: n in node.interfaces
    requires count <= |names|
  {
    if count == 0 then []
    else
      var before, ifname := Events(node, ethMap, target, f, names, count - 1), names[count - 1];
      if ifname !in ethMap then before
      else before + EventsOfIface(node, ethMap, target, f, ifname, |Routes(node.interfaces[ifname], f)|)
  }

  // ------------------------------------------------------------- the stateful part

  datatype State = State(groups: Groups, preferred: set<Cidr>)

  function AppendHop(groups: Groups, dst: Cidr, hop: Hop): Groups {
    var entries := if dst in groups then groups[dst] else [];
    groups[dst := if hop in entries then entries else entries + [hop]]
  }

  function Apply(s: State, e: Event): State {
    match e
    case Nothing => s
    case Connected(dst, hop) => s.(groups := AppendHop(s.groups, NormalizePrefix(dst), hop))
    case Offer(own, dst, hop) =>
      if !own && dst in s.preferred then s
      else
        var d := NormalizePrefix(dst);
        var s' := if own && !IsDefault(dst) && d !in s.preferred
                  then State(s.groups - {d}, s.preferred + {d}) else s;
        if hop.Some? then s'.(groups := AppendHop(s'.groups, d, hop.value)) else s'
  }

  function ApplyAll(events: seq<Event>): State {
    if events == [] then State(map[], {})
    else Apply(ApplyAll(events[..|events| - 1]), events[|events| - 1])
  }

  function LaneEvents(node: Node, ethMap: EthMap, target: Name, f: Family): seq<Event>
    requires ValidNode(node) && target in node.interfaces
  {
    var names := SortedNames(node.interfaces.Keys);
    Events(node, ethMap, target, f, names, |names|)
  }

  function GroupsOf(node: Node, ethMap: EthMap, target: Name, f: Family): Groups
    requires ValidNode(node) && target in node.interfaces
  {
    ApplyAll(LaneEvents(node, ethMap, target, f)).groups
  }

  method PolicyGroupsForLane(node: Node, ethMap: EthMap, target: Name, f: Family) returns (groups: Groups)
    requires ValidNode(node) && target in node.interfaces
    ensures groups == GroupsOf(node, ethMap, target, f)
  {
    hide EventsOfIface, Apply, ApplyAll, ValidNode, StrictlySorted;
    groups := map[];
    var preferred: set<Cidr> := {};
    var names := SortedNames(node.interfaces.Keys);
    NothingApplied();
    for i := 0 to |names|
      invariant State(groups, preferred) == ApplyAll(Events(node, ethMap, target, f, names, i))
    {
      if names[i] in ethMap {
        groups, preferred := VisitIface(
          node, ethMap, target, f, names[i], groups, preferred, Events(node, ethMap, target, f, names, i));
      }
    }
  }

  lemma NothingApplied()
    ensures ApplyAll([]) == State(map[], {})
  {
  }

  /** The loop over the routes of one interface. */
  method VisitIface(node: Node, ethMap: EthMap, target: Name, f: Family, ifname: Name,
                    groups0: Groups, preferred0: set<Cidr>, ghost before: seq<Event>)
      returns (groups: Groups, preferred: set<Cidr>)
    requires ValidNode(node) && target in node.interfaces && ifname in node.interfaces && ifname in ethMap
    requires State(groups0, preferred0) == ApplyAll(before)
    ensures State(groups, preferred)
         == ApplyAll(before + EventsOfIface(node, ethMap, target, f, ifname, |Routes(node.interfaces[ifname], f)|))
  {
    hide Classify, ApplyAll;
    groups, preferred := groups0, preferred0;
    var routes := Routes(node.interfaces[ifname], f);
    assert before + EventsOfIface(node, ethMap, target, f, ifname, 0) == before;
    for j := 0 to |routes|
      invariant State(groups, preferred) == ApplyAll(before + EventsOfIface(node, ethMap, target, f, ifname, j))
    {
      var e := Classify(node, ethMap, target, f, ifname, routes[j]);
      ApplyAllStep(before, EventsOfIface(node, ethMap, target, f, ifname, j), e);
      match e {
        case Nothing =>
        case Connected(dst, hop) =>
          groups := AppendHop(groups, NormalizePrefix(dst), hop);
        case Offer(own, dst, hop) =>
          if own || dst !in preferred {
            var d := NormalizePrefix(dst);
            if own && !IsDefault(dst) && d !in preferred {
              preferred := preferred + {d};
              groups := groups - {d};
            }
            if hop.Some? {
              groups := AppendHop(groups, d, hop.value);
            }
          }
      }
    }
  }

  lemma ApplyAllStep(before: seq<Event>, events: seq<Event>, e: Event)
    ensures ApplyAll(before + (events + [e])) == Apply(ApplyAll(before + events), e)
  {
    var all := before + events + [e];
    assert before + (events + [e]) == all;
    assert all[..|all| - 1] == before + events && all[|all| - 1] == e;
  }

  // -------------------------------------------------- what the final groups contain

  /** A non-default offer of the target interface: it claims the destination for the target. */
  predicate Claims(e: Event, d: Cidr) {
    e.Offer? && e.own && !IsDefault(e.dst) && NormalizePrefix(e.dst) == d
  }

  function FirstClaim(events: seq<Event>, d: Cidr): (r: nat)
    ensures r <= |events|
    ensures r < |events| ==> Claims(events[r], d)
    ensures forall i | 0 <= i < r :: !Claims(events[i], d)
  {
    if events == [] then 0
    else
      var r := FirstClaim(events[..|events| - 1], d);
      if r < |events| - 1 || Claims(events[|events| - 1], d) then r else |events|
  }

  /** The hop an event holds for `d`; once the target has claimed `d`, offers spelled `d` by others hold none. */
  function HopFor(e: Event, d: Cidr, claimed: bool): Option<Hop> {
    match e
    case Nothing => None
    case Connected(dst, hop) => if NormalizePrefix(dst) == d then Some(hop) else None
    case Offer(own, dst, hop) =>
      if NormalizePrefix(dst) == d && (own || !claimed || dst != d) then hop else None
  }

  function DistinctHops(events: seq<Event>, d: Cidr, claimed: bool): seq<Hop> {
    if events == [] then []
    else Extend(DistinctHops(events[..|events| - 1], d, claimed), HopFor(events[|events| - 1], d, claimed))
  }

  /** Without a claim every hop for `d` stays; with one, only those from the first claim on. */
  function FinalHops(events: seq<Event>, d: Cidr): seq<Hop> {
    var first := FirstClaim(events, d);
    DistinctHops(events[if first < |events| then first else 0..], d, first < |events|)
  }

  function HopsOf(groups: Groups, d: Cidr): seq<Hop> {
    if d in groups then groups[d] else []
  }

  lemma FirstClaimStep(events: seq<Event>, e: Event, d: Cidr)
    ensures FirstClaim(events + [e], d)
         == if FirstClaim(events, d) < |events| || Claims(e, d) then FirstClaim(events, d) else |events| + 1
  {
    assert (events + [e])[..|events|] == events;
  }

  function Extend(hops: seq<Hop>, hop: Option<Hop>): seq<Hop> {
    if hop.Some? && hop.value !in hops then hops + [hop.value] else hops
  }

  lemma DistinctHopsStep(events: seq<Event>, e: Event, d: Cidr, claimed: bool)
    ensures DistinctHops(events + [e], d, claimed) == Extend(DistinctHops(events, d, claimed), HopFor(e, d, claimed))
  {
    var all := events + [e];
    assert all[..|all| - 1] == events && all[|all| - 1] == e;
  }

  lemma FinalHopsStep(events: seq<Event>, e: Event, d: Cidr)
    ensures var claimed := FirstClaim(events, d) < |events|;
            var kept := if Claims(e, d) && !claimed then [] else FinalHops(events, d);
            FinalHops(events + [e], d) == Extend(kept, HopFor(e, d, claimed || Claims(e, d)))
  {
    FirstClaimStep(events, e, d);
    var first := FirstClaim(events, d);
    hide Claims, HopFor, FirstClaim;
    if first == |events| && Claims(e, d) {
      assert (events + [e])[first..] == [] + [e];
      DistinctHopsStep([], e, d, true);
    } else if first == |events| {
      assert events[0..] == events && (events + [e])[0..] == events + [e];
      DistinctHopsStep(events, e, d, false);
    } else {
      assert (events + [e])[first..] == events[first..] + [e];
      DistinctHopsStep(events[first..], e, d, true);
    }
  }

  lemma {:induction false} PreferredIsClaimed(events: seq<Event>, d: Cidr)
    ensures d in ApplyAll(events).preferred <==> FirstClaim(events, d) < |events|
    ensures d in ApplyAll(events).preferred ==> NormalizePrefix(d) == d
  {
    if events != [] {
      var rest, e := events[..|events| - 1], events[|events| - 1];
      assert events == rest + [e];
      PreferredIsClaimed(rest, d);
      FirstClaimStep(rest, e, d);
      if e.Offer? { NormalizePrefixIdempotent(e.dst); }
    }
  }

  lemma {:induction false} NoEmptyGroup(events: seq<Event>, d: Cidr)
    ensures d in ApplyAll(events).groups ==> ApplyAll(events).groups[d] != []
  {
    if events != [] {
      NoEmptyGroup(events[..|events| - 1], d);
    }
  }

  lemma ApplyStep(s: State, e: Event, d: Cidr)
    requires d in s.groups ==> s.groups[d] != []
    requires forall c | c in s.preferred :: NormalizePrefix(c) == c
    ensures var kept := if Claims(e, d) && d !in s.preferred then [] else HopsOf(s.groups, d);
            HopsOf(Apply(s, e).groups, d) == Extend(kept, HopFor(e, d, d in s.preferred || Claims(e, d)))
  {
  }

  /** The whole loop, destination by destination, in closed form. */
  lemma {:induction false} GroupsAreFinalHops(events: seq<Event>, d: Cidr)
    ensures HopsOf(ApplyAll(events).groups, d) == FinalHops(events, d)
  {
    if events == [] {
      hide NormalizePrefix, Claims, HopFor;
    } else {
      hide Claims, HopFor, FirstClaim, FinalHops, Apply, NormalizePrefix, HopsOf, Extend;
      var rest, e := events[..|events| - 1], events[|events| - 1];
      assert ApplyAll(events) == Apply(ApplyAll(rest), e);
      hide ApplyAll;
      GroupsAreFinalHops(rest, d);
      PreferredIsClaimed(rest, d);
      NoEmptyGroup(rest, d);
      forall c | c in ApplyAll(rest).preferred
        ensures NormalizePrefix(c) == c
      {
        PreferredIsClaimed(rest, c);
      }
      ApplyStep(ApplyAll(rest), e, d);
      FinalHopsStep(rest, e, d);
      assert events == rest + [e];
    }
  }

  // ------------------------------------------------------------------ consequences

  ghost predicate Held(events: seq<Event>, d: Cidr, claimed: bool, hop: Hop) {
    exists e | e in events :: HopFor(e, d, claimed) == Some(hop)
  }

  lemma {:induction false} DistinctHopsMembers(events: seq<Event>, d: Cidr, claimed: bool)
    ensures forall h :: h in DistinctHops(events, d, claimed) <==> Held(events, d, claimed, h)
    ensures forall i, j | 0 <= i < j < |DistinctHops(events, d, claimed)| ::
              DistinctHops(events, d, claimed)[i] != DistinctHops(events, d, claimed)[j]
  {
    if events != [] {
      var rest, e := events[..|events| - 1], events[|events| - 1];
      DistinctHopsMembers(rest, d, claimed);
      assert forall x :: x in events <==> x in rest || x == e by { assert events == rest + [e]; }
    }
  }

  /** Every group holds at least one hop and none twice. */
  lemma GroupsAreProper(node: Node, ethMap: EthMap, target: Name, f: Family, d: Cidr)
    requires ValidNode(node) && target in node.interfaces && d in GroupsOf(node, ethMap, target, f)
    ensures GroupsOf(node, ethMap, target, f)[d] != []
    ensures forall i, j | 0 <= i < j < |GroupsOf(node, ethMap, target, f)[d]| ::
              GroupsOf(node, ethMap, target, f)[d][i] != GroupsOf(node, ethMap, target, f)[d][j]
  {
    var events := LaneEvents(node, ethMap, target, f);
    NoEmptyGroup(events, d);
    GroupsAreFinalHops(events, d);
    var first := FirstClaim(events, d);
    DistinctHopsMembers(events[if first < |events| then first else 0..], d, first < |events|);
  }

  /** The hops that the target's own routes hold for `d` from its first claim on. */
  ghost predicate HeldByTarget(events: seq<Event>, d: Cidr, hop: Hop) {
    exists i :: FirstClaim(events, d) <= i < |events| && IsOwn(events[i]) && HopFor(events[i], d, true) == Some(hop)
  }

  predicate IsOwn(e: Event) {
    e.Connected? || (e.Offer? && e.own)
  }

  /** An offer by another interface that comes after the claim and spells the prefix with host bits. */
  predicate SlipsThrough(events: seq<Event>, d: Cidr, i: nat)
    requires i < |events|
  {
    var e := events[i];
    && FirstClaim(events, d) <= i && e.Offer? && !e.own && e.hop.Some?
    && NormalizePrefix(e.dst) == d && e.dst != d
  }

  /**
   * Once the target has claimed `d`, its group holds only hops of the target's own
   * routes exactly when each later differently spelled offer of another interface
   * repeats such a hop.
   */
  lemma OnlyTargetHopsIff(events: seq<Event>, d: Cidr)
    requires FirstClaim(events, d) < |events|
    ensures (forall h | h in HopsOf(ApplyAll(events).groups, d) :: HeldByTarget(events, d, h))
       <==> (forall i: nat | i < |events| && SlipsThrough(events, d, i) ::
               HeldByTarget(events, d, events[i].hop.value))
    ensures forall h | HeldByTarget(events, d, h) :: h in HopsOf(ApplyAll(events).groups, d)
  {
    var hops := HopsOf(ApplyAll(events).groups, d);
    forall i: nat | FirstClaim(events, d) <= i < |events| && HopFor(events[i], d, true).Some?
      ensures HopFor(events[i], d, true).value in hops
    {
      ClaimedGroupHolds(events, d, i);
    }
    forall i: nat | i < |events| && SlipsThrough(events, d, i)
      ensures HopFor(events[i], d, true) == events[i].hop
    {
    }
    hide HopFor, FirstClaim, ApplyAll;
    forall h | h in hops
      ensures HeldByTarget(events, d, h) ||
              exists i: nat :: i < |events| && SlipsThrough(events, d, i) && events[i].hop.value == h
    {
      var i := ClaimedGroupHolder(events, d, h);
    }
  }

  lemma ClaimedGroupHolds(events: seq<Event>, d: Cidr, i: nat)
    requires FirstClaim(events, d) <= i < |events| && HopFor(events[i], d, true).Some?
    ensures HopFor(events[i], d, true).value in HopsOf(ApplyAll(events).groups, d)
  {
    GroupsAreFinalHops(events, d);
    var first := FirstClaim(events, d);
    DistinctHopsMembers(events[first..], d, true);
    assert events[first..][i - first] == events[i];
    assert Held(events[first..], d, true, HopFor(events[i], d, true).value);
  }

  lemma ClaimedGroupHolder(events: seq<Event>, d: Cidr, hop: Hop) returns (i: nat)
    requires FirstClaim(events, d) < |events| && hop in HopsOf(ApplyAll(events).groups, d)
    ensures FirstClaim(events, d) <= i < |events| && HopFor(events[i], d, true) == Some(hop)
    ensures IsOwn(events[i]) || (SlipsThrough(events, d, i) && events[i].hop.value == hop)
  {
    hide ApplyAll, FirstClaim, DistinctHops, HopsOf, NormalizePrefix;
    GroupsAreFinalHops(events, d);
    var first := FirstClaim(events, d);
    var tail := events[first..];
    DistinctHopsMembers(tail, d, true);
    var e :| e in tail && HopFor(e, d, true) == Some(hop);
    var k :| 0 <= k < |tail| && tail[k] == e;
    i := first + k;
  }

  /**
   * Such an offer does dilute the group: whenever another interface spells the
   * claimed prefix with host bits, its hop joins the target's.
   */
  lemma MisspelledPrefixSlipsThrough(net: Cidr, spelled: Cidr, own: Hop, other: Hop)
    requires NormalizePrefix(spelled) == net && spelled != net && !IsDefault(net) && own != other
    ensures HopsOf(ApplyAll([Offer(true, net, Some(own)), Offer(false, spelled, Some(other))]).groups, net)
         == [own, other]
  {
    var e0, e1 := Offer(true, net, Some(own)), Offer(false, spelled, Some(other));
    NormalizePrefixIdempotent(spelled);
    var events := [e0, e1];
    GroupsAreFinalHops(events, net);
    assert Claims(events[0], net);
    assert FirstClaim(events, net) == 0;
    assert events[0..] == [e0] + [e1];
    DistinctHopsStep([e0], e1, net, true);
    assert [e0] == [] + [e0];
    DistinctHopsStep([], e0, net, true);
    assert [] + [own] == [own] && [own] + [other] == [own, other];
  }

  /** 10.0.0.1/24 is such a spelling of 10.0.0.0/24. */
  lemma HostBitsExample()
    ensures var net, spelled := Cidr(Ip(V4, 0x0A00_0000), 24), Cidr(Ip(V4, 0x0A00_0001), 24);
            NormalizePrefix(spelled) == net && spelled != net && !IsDefault(net)
  {
    var net, spelled := Cidr(Ip(V4, 0x0A00_0000), 24), Cidr(Ip(V4, 0x0A00_0001), 24);
    PowersOfIpv4();
    hide Pow2;
    Division(net.ip.value, 0xA_0000, 256, 0);
    Division(spelled.ip.value, 0xA_0000, 256, 1);
    assert NumAddresses(net) == NumAddresses(spelled) == 256;
    assert NetworkAddress(net) == NetworkAddress(spelled) == net.ip.value;
  }

  // ------------------------------------------------ from events back to the routes

  ghost predicate ComesFrom(node: Node, ethMap: EthMap, target: Name, f: Family, e: Event, ifname: Name, j: nat)
    requires ValidNode(node) && target in node.interfaces
  {
    && ifname in node.interfaces && ifname in ethMap && j < |Routes(node.interfaces[ifname], f)|
    && e == Classify(node, ethMap, target, f, ifname, Routes(node.interfaces[ifname], f)[j])
  }

  lemma {:induction false} IfaceEventSource(
      node: Node, ethMap: EthMap, target: Name, f: Family, ifname: Name, count: nat, e: Event)
    requires ValidNode(node) && target in node.interfaces && ifname in node.interfaces && ifname in ethMap
    requires count <= |Routes(node.interfaces[ifname], f)|
    ensures e in EventsOfIface(node, ethMap, target, f, ifname, count)
       <==> exists j: nat :: j < count && ComesFrom(node, ethMap, target, f, e, ifname, j)
    decreases count
  {
    hide Classify;
    if count > 0 {
      IfaceEventSource(node, ethMap, target, f, ifname, count - 1, e);
      var last := Classify(node, ethMap, target, f, ifname, Routes(node.interfaces[ifname], f)[count - 1]);
      assert e == last ==> ComesFrom(node, ethMap, target, f, e, ifname, count - 1);
    }
  }

  lemma {:induction false} EventSource(
      node: Node, ethMap: EthMap, target: Name, f: Family, names: seq<Name>, count: nat, e: Event)
    requires ValidNode(node) && target in node.interfaces && forall n | n in names :: n in node.interfaces
    requires count <= |names|
    ensures e in Events(node, ethMap, target, f, names, count)
       <==> exists i: nat, j: nat :: i < count && ComesFrom(node, ethMap, target, f, e, names[i], j)
    decreases count
  {
    hide EventsOfIface, Classify, ValidNode;
    if count > 0 {
      EventSource(node, ethMap, target, f, names, count - 1, e);
      var ifname := names[count - 1];
      if ifname in ethMap {
        IfaceEventSource(node, ethMap, target, f, ifname, |Routes(node.interfaces[ifname], f)|, e);
        forall j: nat | ComesFrom(node, ethMap, target, f, e, ifname, j)
          ensures j < |Routes(node.interfaces[ifname], f)|
        {
        }
      }
    }
  }

  lemma ClassifyOrigin(node: Node, ethMap: EthMap, target: Name, f: Family, ifname: Name, route: Route)
    requires ValidNode(node) && target in node.interfaces && ifname in node.interfaces && ifname in ethMap
    ensures var e := Classify(node, ethMap, target, f, ifname, route);
            (IsOwn(e) ==> ifname == target) && (!e.Nothing? ==> route.dst == Some(e.dst))
  {
  }

  /** Destinations are written without host bits. */
  ghost predicate CanonicalRoutes(node: Node, f: Family) {
    forall n, r | n in node.interfaces && r in Routes(node.interfaces[n], f) && r.dst.Some? ::
      NormalizePrefix(r.dst.value) == r.dst.value
  }

  lemma ClaimIsSeen(node: Node, ethMap: EthMap, target: Name, f: Family, d: Cidr, claim: nat)
    requires ValidNode(node) && target in node.interfaces && target in ethMap
    requires claim < |Routes(node.interfaces[target], f)|
    requires Claims(Classify(node, ethMap, target, f, target, Routes(node.interfaces[target], f)[claim]), d)
    ensures FirstClaim(LaneEvents(node, ethMap, target, f), d) < |LaneEvents(node, ethMap, target, f)|
  {
    var names, events := SortedNames(node.interfaces.Keys), LaneEvents(node, ethMap, target, f);
    var e0 := Classify(node, ethMap, target, f, target, Routes(node.interfaces[target], f)[claim]);
    hide Classify, Claims, Events, ValidNode;
    var t :| 0 <= t < |names| && names[t] == target;
    assert ComesFrom(node, ethMap, target, f, e0, names[t], claim);
    EventSource(node, ethMap, target, f, names, |names|, e0);
    var p :| 0 <= p < |events| && events[p] == e0;
  }

  /**
   * With canonical destinations, as soon as one route of the target interface claims
   * `d`, every hop of the lane's group for `d` was brought by a route of the target
   * interface, wherever the target falls in name order.
   */
  lemma TargetRoutesPrevail(node: Node, ethMap: EthMap, target: Name, f: Family, d: Cidr, claim: nat, hop: Hop)
    requires ValidNode(node) && target in node.interfaces && target in ethMap && CanonicalRoutes(node, f)
    requires claim < |Routes(node.interfaces[target], f)|
    requires Claims(Classify(node, ethMap, target, f, target, Routes(node.interfaces[target], f)[claim]), d)
    requires hop in HopsOf(GroupsOf(node, ethMap, target, f), d)
    ensures exists j: nat :: j < |Routes(node.interfaces[target], f)|
              && HopFor(Classify(node, ethMap, target, f, target, Routes(node.interfaces[target], f)[j]), d, true)
                 == Some(hop)
  {
    var events := LaneEvents(node, ethMap, target, f);
    hide Classify, Claims, HopFor, FirstClaim, LaneEvents, ApplyAll, ValidNode;
    ClaimIsSeen(node, ethMap, target, f, d, claim);
    OnlyTargetHopsIff(events, d);
    forall i: nat | i < |events|
      ensures !SlipsThrough(events, d, i)
    {
      var n, j := SourceOf(node, ethMap, target, f, events[i]);
      assert Routes(node.interfaces[n], f)[j] in Routes(node.interfaces[n], f);
    }
    assert HeldByTarget(events, d, hop);
    var i :| FirstClaim(events, d) <= i < |events| && IsOwn(events[i]) && HopFor(events[i], d, true) == Some(hop);
    var n, j := SourceOf(node, ethMap, target, f, events[i]);
  }

  lemma SourceOf(node: Node, ethMap: EthMap, target: Name, f: Family, e: Event) returns (ifname: Name, j: nat)
    requires ValidNode(node) && target in node.interfaces && e in LaneEvents(node, ethMap, target, f)
    ensures ComesFrom(node, ethMap, target, f, e, ifname, j)
    ensures IsOwn(e) ==> ifname == target
    ensures !e.Nothing? ==> Routes(node.interfaces[ifname], f)[j].dst == Some(e.dst)
  {
    hide Classify, Events, ValidNode;
    var names := SortedNames(node.interfaces.Keys);
    EventSource(node, ethMap, target, f, names, |names|, e);
    var i: nat;
    i, j :| i < |names| && ComesFrom(node, ethMap, target, f, e, names[i], j);
    ifname := names[i];
    ClassifyOrigin(node, ethMap, target, f, ifname, Routes(node.interfaces[ifname], f)[j]);
  }

  /** Every destination of a lane's table is that of some route of the family, without host bits. */
  lemma GroupsComeFromRoutes(node: Node, ethMap: EthMap, target: Name, f: Family, d: Cidr)
    requires ValidNode(node) && target in node.interfaces && d in GroupsOf(node, ethMap, target, f)
    ensures exists n, r :: n in node.interfaces && r in Routes(node.interfaces[n], f)
                           && r.dst.Some? && NormalizePrefix(r.dst.value) == d
  {
    var events := LaneEvents(node, ethMap, target, f);
    NoEmptyGroup(events, d);
    GroupsAreFinalHops(events, d);
    hide LaneEvents, ApplyAll, Classify, ValidNode;
    var first := FirstClaim(events, d);
    var tail := events[if first < |events| then first else 0..];
    DistinctHopsMembers(tail, d, first < |events|);
    hide FirstClaim, NormalizePrefix;
    var hop := FinalHops(events, d)[0];
    assert hop in FinalHops(events, d);
    var e :| e in tail && HopFor(e, d, first < |events|) == Some(hop);
    var n, j := SourceOf(node, ethMap, target, f, e);
    assert Routes(node.interfaces[n], f)[j] in Routes(node.interfaces[n], f);
  }
}
