/**
 * Phase 1 of `render` in clabgen/s88/CM/linux_policy_routes.py: one row of lane
 * data per policy routing surface, in interface name order.
 */
module PolicyLanes {
  import opened Common
  import opened Sorting
  import opened Addressing
  import opened NodeModel
  import opened PolicyGroups

  datatype AllocationError =
    | MissingAllocation(ifname: Name) | UnknownAllocationSource(ifname: Name) | NotPositive(ifname: Name)

  datatype LaneRow = LaneRow(
    ifname: Name, eth: Name, access: Option<Name>, kind: LaneKind, table: int, priority: int,
    mainSuppress: Option<int>, shared: seq<Name>, routes4: Groups, routes6: Groups)

  function LaneGroups(row: LaneRow, f: Family): Groups {
    if f == V4 then row.routes4 else row.routes6
  }

  function RulePriority(a: Allocation): int {
    if a.tableRulePriority.Some? then a.tableRulePriority.value else a.priority
  }

  /** The CPM allocation of a surface; the renderer never invents a table or priority. */
  function PolicyRoutingAllocation(iface: Iface, ifname: Name): (r: Result<Allocation, AllocationError>)
    ensures r.Ok? <==>
              && iface.allocation.Some? && iface.allocation.value.source != UnknownSource
              && iface.allocation.value.tableId > 0 && RulePriority(iface.allocation.value) > 0
              && (iface.allocation.value.mainSuppress.Some? ==> iface.allocation.value.mainSuppress.value > 0)
    ensures r.Ok? ==> Some(r.value) == iface.allocation
  {
    if iface.allocation.None? then Err(MissingAllocation(ifname))
    else
      var a := iface.allocation.value;
      if a.source == UnknownSource then Err(UnknownAllocationSource(ifname))
      else if a.tableId <= 0 || RulePriority(a) <= 0 then Err(NotPositive(ifname))
      else if a.mainSuppress.Some? && a.mainSuppress.value <= 0 then Err(NotPositive(ifname))
      else Ok(a)
  }

  predicate IsPolicyRoutingSurface(iface: Iface) {
    var lane := IfaceLane(iface);
    lane.access.Some?
    || (LaneUplinks(lane) != {} && (exists r | r in iface.routes4 + iface.routes6 :: r.policyOnly)
        && iface.allocation.Some?)
  }

  // --------------------------------------------------------- ingress interfaces of a lane

  function KeyFor(ethMap: EthMap, names: seq<Name>, runtime: Name): Option<Name>
    requires forall n | n in names :: n in ethMap
  {
    if names == [] then None
    else if ethMap[names[0]] == runtime then Some(names[0])
    else KeyFor(ethMap, names[1..], runtime)
  }

  function LogicalInterface(ethMap: EthMap, name: Name): Option<Name> {
    if name in ethMap then Some(name) else KeyFor(ethMap, SortedNames(ethMap.Keys), name)
  }

  function ForwardingSources(ethMap: EthMap, rules: seq<ForwardRule>, target: Name): seq<Name>
    requires target in ethMap
  {
    if rules == [] then []
    else
      var r := rules[0];
      var source := LogicalInterface(ethMap, r.fromName);
      (if r.accept && r.toName in {target, ethMap[target]} && source.Some? && source.value != target
       then [source.value] else [])
      + ForwardingSources(ethMap, rules[1..], target)
  }

  function SameUplinkPeers(node: Node, names: seq<Name>, target: Name): seq<Name>
    requires target in node.interfaces && forall n | n in names :: n in node.interfaces
  {
    if names == [] then []
    else
      var lane := IfaceLane(node.interfaces[names[0]]);
      (if names[0] != target && lane.access.None? && SameUplink(lane, IfaceLane(node.interfaces[target]))
       then [names[0]] else [])
      + SameUplinkPeers(node, names[1..], target)
  }

  function Known(ethMap: EthMap, target: Name, names: seq<Name>): seq<Name> {
    if names == [] then []
    else (if names[0] in ethMap && names[0] != target then [names[0]] else []) + Known(ethMap, target, names[1..])
  }

  /** Interfaces other than the lane's own whose traffic may enter the lane. */
  function SharedInterfaces(node: Node, ethMap: EthMap, target: Name): seq<Name>
    requires target in node.interfaces && target in ethMap
  {
    Known(ethMap, target,
          Deduped([target] + SameUplinkPeers(node, SortedNames(node.interfaces.Keys), target)
                  + ForwardingSources(ethMap, node.forwarding, target)))
  }

  // ---------------------------------------------------------------------- collection

  predicate IsSurface(node: Node, ethMap: EthMap, n: Name) {
    n in node.interfaces && n in ethMap && IsPolicyRoutingSurface(node.interfaces[n])
  }

  function RowOf(node: Node, ethMap: EthMap, n: Name): Result<LaneRow, AllocationError>
    requires ValidNode(node) && IsSurface(node, ethMap, n)
  {
    var lane := IfaceLane(node.interfaces[n]);
    var allocation := PolicyRoutingAllocation(node.interfaces[n], n);
    if allocation.Err? then Err(allocation.error)
    else
      var a := allocation.value;
      Ok(LaneRow(n, ethMap[n], lane.access, lane.kind, a.tableId, RulePriority(a), a.mainSuppress,
                 SharedInterfaces(node, ethMap, n), GroupsOf(node, ethMap, n, V4), GroupsOf(node, ethMap, n, V6)))
  }

  /** The rows of the first `count` interfaces, or the error of the first one that stops the rendering. */
  function RowsOf(node: Node, ethMap: EthMap, names: seq<Name>, count: nat): Result<seq<LaneRow>, AllocationError>
    requires ValidNode(node) && count <= |names|
  {
    if count == 0 then Ok([])
    else
      var before, n := RowsOf(node, ethMap, names, count - 1), names[count - 1];
      if before.Err? || !IsSurface(node, ethMap, n) then before
      else
        var row := RowOf(node, ethMap, n);
        if row.Err? then Err(row.error) else Ok(before.value + [row.value])
  }

  function LaneRows(node: Node, ethMap: EthMap): Result<seq<LaneRow>, AllocationError>
    requires ValidNode(node)
  {
    var names := SortedNames(node.interfaces.Keys);
    RowsOf(node, ethMap, names, |names|)
  }

  method CollectLanes(node: Node, ethMap: EthMap) returns (r: Result<seq<LaneRow>, AllocationError>)
    requires ValidNode(node)
    ensures r == LaneRows(node, ethMap)
  {
    hide RowOf, RowsOf, ValidNode, IsPolicyRoutingSurface;
    var rows: seq<LaneRow> := [];
    var names := SortedNames(node.interfaces.Keys);
    NoRows(node, ethMap, names);
    for i := 0 to |names|
      invariant RowsOf(node, ethMap, names, i) == Ok(rows)
    {
      var n := names[i];
      RowsNext(node, ethMap, names, i);
      if n !in ethMap || !IsPolicyRoutingSurface(node.interfaces[n]) {
        continue;
      }
      var row := CollectRow(node, ethMap, n);
      if row.Err? {
        ErrorStays(node, ethMap, names, i + 1, |names|);
        return Err(row.error);
      }
      rows := rows + [row.value];
    }
    return Ok(rows);
  }

  lemma NoRows(node: Node, ethMap: EthMap, names: seq<Name>)
    requires ValidNode(node)
    ensures RowsOf(node, ethMap, names, 0) == Ok([])
  {
  }

  lemma RowsNext(node: Node, ethMap: EthMap, names: seq<Name>, i: nat)
    requires ValidNode(node) && i < |names| && RowsOf(node, ethMap, names, i).Ok?
    ensures RowsOf(node, ethMap, names, i + 1)
         == if !IsSurface(node, ethMap, names[i]) then RowsOf(node, ethMap, names, i)
            else match RowOf(node, ethMap, names[i])
                 case Err(e) => Err(e)
                 case Ok(row) => Ok(RowsOf(node, ethMap, names, i).value + [row])
  {
    hide RowOf, ValidNode, IsSurface;
  }

  /** The body of that loop for a policy routing surface. */
  method CollectRow(node: Node, ethMap: EthMap, n: Name) returns (r: Result<LaneRow, AllocationError>)
    requires ValidNode(node) && IsSurface(node, ethMap, n)
    ensures r == RowOf(node, ethMap, n)
  {
    hide PolicyRoutingAllocation, ValidNode, SharedInterfaces, GroupsOf, IsPolicyRoutingSurface;
    var routes4 := PolicyGroupsForLane(node, ethMap, n, V4);
    var routes6 := PolicyGroupsForLane(node, ethMap, n, V6);
    var allocation := PolicyRoutingAllocation(node.interfaces[n], n);
    if allocation.Err? {
      return Err(allocation.error);
    }
    var a := allocation.value;
    var lane := IfaceLane(node.interfaces[n]);
    return Ok(LaneRow(n, ethMap[n], lane.access, lane.kind, a.tableId, RulePriority(a), a.mainSuppress,
                      SharedInterfaces(node, ethMap, n), routes4, routes6));
  }

  lemma {:induction false} ErrorStays(node: Node, ethMap: EthMap, names: seq<Name>, i: nat, j: nat)
    requires ValidNode(node) && i <= j <= |names| && RowsOf(node, ethMap, names, i).Err?
    ensures RowsOf(node, ethMap, names, j) == RowsOf(node, ethMap, names, i)
    decreases j
  {
    if i < j {
      ErrorStays(node, ethMap, names, i, j - 1);
    }
  }

  ghost predicate NamesRise(rows: seq<LaneRow>) {
    forall i, j | 0 <= i < j < |rows| :: NameLe(rows[i].ifname, rows[j].ifname) && rows[i].ifname != rows[j].ifname
  }

  /**
   * Collection succeeds exactly when every surface has an acceptable allocation, and
   * then the rows are the surfaces, one each, in name order.
   */
  lemma {:induction false} LanesAreTheSurfaces(node: Node, ethMap: EthMap, names: seq<Name>, count: nat)
    requires ValidNode(node) && count <= |names| && StrictlySorted(NameLe, names)
    ensures var r := RowsOf(node, ethMap, names, count);
            && (r.Ok? <==> forall k | 0 <= k < count && IsSurface(node, ethMap, names[k]) ::
                             RowOf(node, ethMap, names[k]).Ok?)
            && (r.Ok? ==>
                  && NamesRise(r.value)
                  && (forall row | row in r.value ::
                      IsSurface(node, ethMap, row.ifname) && RowOf(node, ethMap, row.ifname) == Ok(row))
                  && (forall n :: (exists row | row in r.value :: row.ifname == n)
                              <==> n in names[..count] && IsSurface(node, ethMap, n)))
    decreases count
  {
    hide RowOf, IsSurface, ValidNode, NameLe;
    if count > 0 {
      LanesAreTheSurfaces(node, ethMap, names, count - 1);
      var before, n := RowsOf(node, ethMap, names, count - 1), names[count - 1];
      assert names[..count] == names[..count - 1] + [n];
      if before.Ok? && IsSurface(node, ethMap, n) && RowOf(node, ethMap, n).Ok? {
        var row := RowOf(node, ethMap, n).value;
        NamedAfter(node, ethMap, n);
        assert RowsOf(node, ethMap, names, count) == Ok(before.value + [row]);
        hide RowsOf;
        assert forall x :: x in before.value + [row] <==> x in before.value || x == row;
        NamesStillRise(names, count, before.value, row);
        hide NamesRise, StrictlySorted;
      }
    }
  }

  lemma NamedAfter(node: Node, ethMap: EthMap, n: Name)
    requires ValidNode(node) && IsSurface(node, ethMap, n)
    ensures RowOf(node, ethMap, n).Ok? ==> RowOf(node, ethMap, n).value.ifname == n
  {
    hide PolicyRoutingAllocation, ValidNode, SharedInterfaces, GroupsOf, IsPolicyRoutingSurface;
  }

  lemma NamesStillRise(names: seq<Name>, count: nat, rows: seq<LaneRow>, row: LaneRow)
    requires 0 < count <= |names| && StrictlySorted(NameLe, names) && row.ifname == names[count - 1] && NamesRise(rows)
    requires forall x | x in rows :: x.ifname in names[..count - 1]
    ensures NamesRise(rows + [row])
  {
    hide NameLe;
    forall i | 0 <= i < |rows|
      ensures NameLe(rows[i].ifname, row.ifname) && rows[i].ifname != row.ifname
    {
      assert rows[i] in rows;
      assert rows[i].ifname in names[..count - 1];
      var k :| 0 <= k < count - 1 && names[k] == rows[i].ifname;
    }
  }

  // ------------------------------------------------ which interfaces share a lane, in fields

  /** Interface `n` has no access of its own, and an uplink in common with `target`. */
  ghost predicate IsUplinkPeer(node: Node, target: Name, n: Name) {
    && target in node.interfaces && n in node.interfaces
    && (node.interfaces[n].lane.Some? && node.interfaces[n].lane.value.access.None?)
    && node.interfaces[target].lane.Some?
    && (var (mine, theirs) := (node.interfaces[target].lane.value, node.interfaces[n].lane.value);
        exists u :: (mine.uplink == Some(u) || u in mine.uplinks) && (theirs.uplink == Some(u) || u in theirs.uplinks))
  }

  /** Text `name` of a forwarding rule means interface `n`: its own name, or else the runtime name of the first such. */
  ghost predicate Means(ethMap: EthMap, name: Name, n: Name) {
    if name in ethMap then n == name
    else n in ethMap && ethMap[n] == name && forall m | m in ethMap && ethMap[m] == name :: NameLe(n, m)
  }

  /** A forwarding rule accepts traffic from `n` to `target`. */
  ghost predicate MayForward(node: Node, ethMap: EthMap, target: Name, n: Name)
    requires target in ethMap
  {
    exists r :: r in node.forwarding && r.accept && (r.toName == target || r.toName == ethMap[target])
                && Means(ethMap, r.fromName, n)
  }

  lemma {:induction false} KeyForIs(ethMap: EthMap, names: seq<Name>, runtime: Name, n: Name)
    requires StrictlySorted(NameLe, names) && forall n | n in names :: n in ethMap
    ensures KeyFor(ethMap, names, runtime) == Some(n)
       <==> n in names && ethMap[n] == runtime && forall m | m in names && ethMap[m] == runtime :: NameLe(n, m)
    ensures KeyFor(ethMap, names, runtime).None? <==> forall m | m in names :: ethMap[m] != runtime
  {
    if names != [] {
      KeyForIs(ethMap, names[1..], runtime, n);
      LeastIsFirst(names);
      hide StrictlySorted, NameLe;
      assert forall x :: x in names <==> x == names[0] || x in names[1..];
    }
  }

  lemma LeastIsFirst(names: seq<Name>)
    requires StrictlySorted(NameLe, names) && names != []
    ensures StrictlySorted(NameLe, names[1..])
    ensures forall x | x in names :: NameLe(names[0], x) && (x != names[0] ==> !NameLe(x, names[0]))
    ensures names == [names[0]] + names[1..]
  {
    NameLeTotal();
    hide NameLe;
  }

  lemma LogicalIs(ethMap: EthMap, name: Name, n: Name)
    ensures LogicalInterface(ethMap, name) == Some(n) <==> Means(ethMap, name, n)
  {
    KeyForIs(ethMap, SortedNames(ethMap.Keys), name, n);
    hide NameLe, StrictlySorted, KeyFor;
  }

  lemma {:induction false} ForwardingMembers(ethMap: EthMap, rules: seq<ForwardRule>, target: Name, n: Name)
    requires target in ethMap
    ensures n in ForwardingSources(ethMap, rules, target)
       <==> && n != target
            && exists r :: r in rules && r.accept && (r.toName == target || r.toName == ethMap[target])
                           && Means(ethMap, r.fromName, n)
  {
    hide LogicalInterface, Means;
    if rules != [] {
      ForwardingMembers(ethMap, rules[1..], target, n);
      LogicalIs(ethMap, rules[0].fromName, n);
      assert rules == [rules[0]] + rules[1..];
    }
  }

  lemma {:induction false} PeerMembers(node: Node, names: seq<Name>, target: Name, n: Name)
    requires target in node.interfaces && forall n | n in names :: n in node.interfaces
    ensures n in SameUplinkPeers(node, names, target) <==> n in names && n != target && IsUplinkPeer(node, target, n)
  {
    hide IsUplinkPeer, SameUplink;
    if names != [] {
      PeerMembers(node, names[1..], target, n);
      UplinkPeerIff(node, target, names[0]);
      assert names == [names[0]] + names[1..];
    }
  }

  lemma UplinkPeerIff(node: Node, target: Name, n: Name)
    requires target in node.interfaces && n in node.interfaces
    ensures IsUplinkPeer(node, target, n)
       <==> IfaceLane(node.interfaces[n]).access.None?
            && SameUplink(IfaceLane(node.interfaces[n]), IfaceLane(node.interfaces[target]))
  {
    CommonUplinkIff(IfaceLane(node.interfaces[n]), IfaceLane(node.interfaces[target]));
    hide SameUplink;
  }

  lemma CommonUplinkIff(a: Lane, b: Lane)
    ensures SameUplink(a, b)
       <==> exists u :: (b.uplink == Some(u) || u in b.uplinks) && (a.uplink == Some(u) || u in a.uplinks)
  {
    var (ua, ub) := (LaneUplinks(a), LaneUplinks(b));
    assert forall u :: u in ua <==> a.uplink == Some(u) || u in a.uplinks;
    assert forall u :: u in ub <==> b.uplink == Some(u) || u in b.uplinks;
    hide LaneUplinks;
    if u :| u in ua * ub {
      assert u in ua && u in ub;
    }
    if u :| (b.uplink == Some(u) || u in b.uplinks) && (a.uplink == Some(u) || u in a.uplinks) {
      assert u in ua * ub;
    }
  }

  lemma {:induction false} KnownMembers(ethMap: EthMap, target: Name, names: seq<Name>, n: Name)
    ensures n in Known(ethMap, target, names) <==> n in names && n in ethMap && n != target
  {
    if names != [] {
      KnownMembers(ethMap, target, names[1..], n);
      assert names == [names[0]] + names[1..];
    }
  }

  /**
   * The other interfaces whose traffic may enter a lane: mapped ones without an access that
   * share an uplink with it, and those from which a forwarding rule accepts traffic to it.
   */
  lemma SharedInterfacesIff(node: Node, ethMap: EthMap, target: Name, n: Name)
    requires target in node.interfaces && target in ethMap
    ensures n in SharedInterfaces(node, ethMap, target)
       <==> n != target && n in ethMap && (IsUplinkPeer(node, target, n) || MayForward(node, ethMap, target, n))
  {
    hide IsUplinkPeer, Means, SameUplinkPeers, ForwardingSources, Deduped, Known;
    var names := SortedNames(node.interfaces.Keys);
    PeerMembers(node, names, target, n);
    ForwardingMembers(ethMap, node.forwarding, target, n);
    var all := [target] + SameUplinkPeers(node, names, target) + ForwardingSources(ethMap, node.forwarding, target);
    KnownMembers(ethMap, target, Deduped(all), n);
    PeerIsInterface(node, target, n);
  }

  lemma PeerIsInterface(node: Node, target: Name, n: Name)
    ensures IsUplinkPeer(node, target, n) ==> n in node.interfaces
  {
  }

  // ------------------------------------------------------------------ a row, in fields

  ghost predicate HasPolicyOnly(iface: Iface) {
    exists r :: (r in iface.routes4 || r in iface.routes6) && r.policyOnly
  }

  /**
   * An interface gets a lane exactly when it has a runtime name and an access, or an
   * uplink, a policy-only route and an allocation.
   */
  lemma SurfaceIff(node: Node, ethMap: EthMap, n: Name)
    ensures IsSurface(node, ethMap, n) <==>
              && n in node.interfaces && n in ethMap && node.interfaces[n].lane.Some?
              && (var (iface, lane) := (node.interfaces[n], node.interfaces[n].lane.value);
                  || lane.access.Some?
                  || ((lane.uplink.Some? || lane.uplinks != {}) && iface.allocation.Some? && HasPolicyOnly(iface)))
  {
    if n in node.interfaces && n in ethMap {
      var iface := node.interfaces[n];
      SomePolicyOnly(iface);
      UplinksEmptyIff(IfaceLane(iface));
      hide LaneUplinks, HasPolicyOnly, IsPolicyRoutingSurface;
    }
  }

  lemma SomePolicyOnly(iface: Iface)
    ensures IsPolicyRoutingSurface(iface) <==>
              || IfaceLane(iface).access.Some?
              || (LaneUplinks(IfaceLane(iface)) != {} && HasPolicyOnly(iface) && iface.allocation.Some?)
  {
    hide LaneUplinks;
    assert forall r :: r in iface.routes4 + iface.routes6 <==> r in iface.routes4 || r in iface.routes6;
  }

  lemma UplinksEmptyIff(lane: Lane)
    ensures LaneUplinks(lane) == {} <==> lane.uplink.None? && lane.uplinks == {}
  {
    assert lane.uplink.Some? ==> lane.uplink.value in LaneUplinks(lane);
    assert forall u | u in lane.uplinks :: u in LaneUplinks(lane);
  }

  /** What a row holds: the names, the lane's access and kind, and the table and numbers of its allocation. */
  lemma RowFields(node: Node, ethMap: EthMap, n: Name, row: LaneRow)
    requires ValidNode(node) && IsSurface(node, ethMap, n)
    ensures RowOf(node, ethMap, n) == Ok(row) ==>
              && row.ifname == n && row.eth == ethMap[n] && node.interfaces[n].lane.Some?
              && row.access == node.interfaces[n].lane.value.access && row.kind == node.interfaces[n].lane.value.kind
              && node.interfaces[n].allocation.Some?
              && (var a := node.interfaces[n].allocation.value;
                  && row.table == a.tableId && row.mainSuppress == a.mainSuppress
                  && row.priority == (match a.tableRulePriority case Some(p) => p case None => a.priority))
  {
    hide SharedInterfaces, GroupsOf, ValidNode;
  }
}
