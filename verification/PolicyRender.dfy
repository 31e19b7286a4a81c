/**
 * The commands of `render` in clabgen/s88/CM/linux_policy_routes.py, Phases 1 to 4:
 * the tables and rules of every lane, and all phases together.
 */
module PolicyRender {
  import opened Common
  import opened Sorting
  import opened Addressing
  import opened NodeModel
  import opened PolicyGroups
  import opened PolicyLanes
  import opened DestinationRules
  import opened SharedRules
  import opened CrossLanes
  import opened RelationSelection

  datatype Command =
    | RouteReplace(family: Family, table: int, dst: Cidr, hops: set<Hop>)
    | Blackhole(table: int)
    | FromRule(family: Family, source: Cidr, ingress: Option<Name>, priority: int, table: int)
    | ToRule(rule: DestRule)
    | IifRule(family: Family, iif: Name, priority: int, table: int)
    | MainSuppressed(family: Family, to: bool, prefix: Cidr, iif: Name, priority: int)
    | Selected(selector: SelectorRule)

  // ------------------------------------------------------------------------ Phase 2

  function RoutePrefixes(routes: seq<Route>, f: Family, reachable: bool): seq<Cidr> {
    if routes == [] then []
    else
      var r := routes[0];
      var wanted := r.proto == ProtoConnected || (reachable && r.intent.accessNode);
      (if wanted && r.dst.Some? && !IsDefault(r.dst.value) && Valid(NormalizePrefix(r.dst.value))
          && r.dst.value.ip.family == f
       then [NormalizePrefix(r.dst.value)] else [])
      + RoutePrefixes(routes[1..], f, reachable)
  }

  function SourcePrefixes(iface: Iface, f: Family, reachable: bool): seq<Cidr>
    requires ValidIface(iface)
  {
    var own := if Addr(iface, f).Some? && Addr(iface, f).value.len < Width(f) - 1
               then [Network(Addr(iface, f).value)] else [];
    Deduped(own + RoutePrefixes(Routes(iface, f), f, reachable))
  }

  /** Rules for one source prefix; only the lane's own interface also gets destination rules. */
  function PrefixCommands(row: LaneRow, f: Family, prefix: Cidr, eth: Name, own: bool): seq<Command> {
    [FromRule(f, prefix, Some(eth), row.priority, row.table)]
    + (if own then [ToRule(DestRule(f, prefix, eth, row.priority, row.table))] else [])
    + (if row.mainSuppress.None? then []
       else [MainSuppressed(f, false, prefix, eth, row.mainSuppress.value)]
            + (if own then [MainSuppressed(f, true, prefix, eth, row.mainSuppress.value)] else []))
  }

  function PrefixesCommands(row: LaneRow, f: Family, prefixes: seq<Cidr>, eth: Name, own: bool): seq<Command> {
    if prefixes == [] then []
    else PrefixCommands(row, f, prefixes[0], eth, own) + PrefixesCommands(row, f, prefixes[1..], eth, own)
  }

  function RuleCommands(node: Node, ethMap: EthMap, row: LaneRow, f: Family, sources: seq<Name>): seq<Command>
    requires ValidNode(node)
  {
    if sources == [] then []
    else
      var n := sources[0];
      (if n !in ethMap || n !in node.interfaces then []
       else
         var own := n == row.ifname;
         var prefixes := SourcePrefixes(node.interfaces[n], f, !own);
         if prefixes != [] then PrefixesCommands(row, f, prefixes, ethMap[n], own)
         else if own then [IifRule(f, ethMap[n], row.priority, row.table)] else [])
      + RuleCommands(node, ethMap, row, f, sources[1..])
  }

  function SourceOfAddress(node: Node, names: seq<Name>, f: Family, a: Ip): Option<Name>
    requires ValidNode(node)
  {
    if names == [] then None
    else if names[0] in node.interfaces && Addr(node.interfaces[names[0]], f).Some?
            && InNetwork(a, Addr(node.interfaces[names[0]], f).value) then Some(names[0])
    else SourceOfAddress(node, names[1..], f, a)
  }

  /** Queries that the node's own resolver sends from an address on one of the lane's interfaces. */
  function LocalOriginCommands(node: Node, ethMap: EthMap, row: LaneRow, f: Family, names: seq<Name>,
                               outgoing: seq<Ip>): seq<Command>
    requires ValidNode(node)
  {
    if outgoing == [] then []
    else
      var a := outgoing[|outgoing| - 1];
      var before := LocalOriginCommands(node, ethMap, row, f, names, outgoing[..|outgoing| - 1]);
      var source := if a.family == f then SourceOfAddress(node, names, f, a) else None;
      if source.None? || a in outgoing[..|outgoing| - 1] then before
      else
        var subnet := Network(SourceAddr(node, names, f, a));
        before
        + (if source.value in ethMap && !IsDefault(subnet)
           then [RouteReplace(f, row.table, subnet, {Hop(None, ethMap[source.value])})] else [])
        + [FromRule(f, Cidr(a, Width(f)), None, row.priority, row.table)]
  }

  function SourceAddr(node: Node, names: seq<Name>, f: Family, a: Ip): (c: Cidr)
    requires ValidNode(node) && SourceOfAddress(node, names, f, a).Some?
    ensures Valid(c)
  {
    if names[0] in node.interfaces && Addr(node.interfaces[names[0]], f).Some?
       && InNetwork(a, Addr(node.interfaces[names[0]], f).value) then Addr(node.interfaces[names[0]], f).value
    else SourceAddr(node, names[1..], f, a)
  }

  function TableCommands(f: Family, row: LaneRow, dsts: seq<Cidr>): seq<Command>
    requires forall d | d in dsts :: d in LaneGroups(row, f)
  {
    if dsts == [] then []
    else
      [RouteReplace(f, row.table, dsts[0], set h | h in LaneGroups(row, f)[dsts[0]])]
      + TableCommands(f, row, dsts[1..])
  }

  predicate HasDefault(groups: Groups) {
    DefaultOf(V4) in groups || DefaultOf(V6) in groups
  }

  /** The table of one family and the rules that lead into it. */
  function FamilyCommands(listing: set<Cidr> -> seq<Cidr>, node: Node, ethMap: EthMap, row: LaneRow,
                          f: Family): seq<Command>
    requires ValidNode(node) && IsListing(listing)
  {
    var groups := LaneGroups(row, f);
    var uplink := row.kind == AccessUplink;
    if groups != map[] then
      TableCommands(f, row, listing(groups.Keys))
      + (if uplink && !HasDefault(groups) then []
         else
           var sources := [row.ifname] + row.shared;
           RuleCommands(node, ethMap, row, f, sources)
           + (if HasDefault(groups)
              then LocalOriginCommands(node, ethMap, row, f, SortedNames(set n | n in sources), node.dnsOutgoing)
              else []))
    else if uplink then []
    else if f == V4 then [Blackhole(row.table), IifRule(V4, row.eth, row.priority, row.table)]
    else if row.routes4 == map[] then [IifRule(V6, row.eth, row.priority, row.table)]
    else []
  }

  /** A rule of the lane leads to the lane's table at the lane's priority, or is its main-table check. */
  predicate AtLanePriority(row: LaneRow, c: Command) {
    match c
    case RouteReplace(_, table, _, _) => table == row.table
    case Blackhole(table) => table == row.table
    case FromRule(_, _, _, priority, table) => priority == row.priority && table == row.table
    case ToRule(rule) => rule.priority == row.priority && rule.table == row.table
    case IifRule(_, _, priority, table) => priority == row.priority && table == row.table
    case MainSuppressed(_, _, _, _, priority) => Some(priority) == row.mainSuppress
    case Selected(_) => false
  }

  predicate AllAtLanePriority(row: LaneRow, cmds: seq<Command>) {
    forall c | c in cmds :: AtLanePriority(row, c)
  }

  lemma {:induction false} TableAtLanePriority(f: Family, row: LaneRow, dsts: seq<Cidr>)
    requires forall d | d in dsts :: d in LaneGroups(row, f)
    ensures AllAtLanePriority(row, TableCommands(f, row, dsts))
  {
    if dsts != [] { TableAtLanePriority(f, row, dsts[1..]); }
  }

  lemma {:induction false} PrefixesAtLanePriority(row: LaneRow, f: Family, prefixes: seq<Cidr>, eth: Name, own: bool)
    ensures AllAtLanePriority(row, PrefixesCommands(row, f, prefixes, eth, own))
  {
    hide PrefixCommands;
    if prefixes != [] {
      PrefixesAtLanePriority(row, f, prefixes[1..], eth, own);
      PrefixAtLanePriority(row, f, prefixes[0], eth, own);
    }
  }

  lemma PrefixAtLanePriority(row: LaneRow, f: Family, prefix: Cidr, eth: Name, own: bool)
    ensures AllAtLanePriority(row, PrefixCommands(row, f, prefix, eth, own))
  {
  }

  lemma {:induction false} RulesAtLanePriority(node: Node, ethMap: EthMap, row: LaneRow, f: Family, sources: seq<Name>)
    requires ValidNode(node)
    ensures AllAtLanePriority(row, RuleCommands(node, ethMap, row, f, sources))
  {
    if sources != [] {
      RulesAtLanePriority(node, ethMap, row, f, sources[1..]);
      var n := sources[0];
      if n in ethMap && n in node.interfaces {
        var prefixes := SourcePrefixes(node.interfaces[n], f, n != row.ifname);
        PrefixesAtLanePriority(row, f, prefixes, ethMap[n], n == row.ifname);
      }
    }
  }

  lemma {:induction false} LocalOriginAtLanePriority(node: Node, ethMap: EthMap, row: LaneRow, f: Family,
                                                     names: seq<Name>, outgoing: seq<Ip>)
    requires ValidNode(node)
    ensures AllAtLanePriority(row, LocalOriginCommands(node, ethMap, row, f, names, outgoing))
  {
    if outgoing != [] { LocalOriginAtLanePriority(node, ethMap, row, f, names, outgoing[..|outgoing| - 1]); }
  }

  /** Whatever Phase 2 renders for a lane uses the lane's own table and priority. */
  lemma LaneCommandsAtLanePriority(listing: set<Cidr> -> seq<Cidr>, node: Node, ethMap: EthMap, row: LaneRow, f: Family)
    requires ValidNode(node) && IsListing(listing)
    ensures AllAtLanePriority(row, FamilyCommands(listing, node, ethMap, row, f))
  {
    var groups, sources := LaneGroups(row, f), [row.ifname] + row.shared;
    if groups != map[] {
      TableAtLanePriority(f, row, listing(groups.Keys));
      RulesAtLanePriority(node, ethMap, row, f, sources);
      LocalOriginAtLanePriority(node, ethMap, row, f, SortedNames(set n | n in sources), node.dnsOutgoing);
    }
  }

  function Phase2(listing: set<Cidr> -> seq<Cidr>, node: Node, ethMap: EthMap, rows: seq<LaneRow>,
                  count: nat): seq<Command>
    requires ValidNode(node) && IsListing(listing) && count <= |rows|
  {
    if count == 0 then []
    else Phase2(listing, node, ethMap, rows, count - 1)
         + FamilyCommands(listing, node, ethMap, rows[count - 1], V4)
         + FamilyCommands(listing, node, ethMap, rows[count - 1], V6)
  }

  // -------------------------------------------------------------- the whole rendering

  datatype RenderError = LaneError(a: AllocationError) | SelectorError(c: ContractError)

  function Selecteds(rules: seq<SelectorRule>): seq<Command> {
    seq(|rules|, i requires 0 <= i < |rules| => Selected(rules[i]))
  }

  function ToRules(rules: seq<DestRule>): seq<Command> {
    seq(|rules|, i requires 0 <= i < |rules| => ToRule(rules[i]))
  }

  method RenderLanes(listing: set<Cidr> -> seq<Cidr>, node: Node, ethMap: EthMap, rows: seq<LaneRow>)
      returns (cmds: seq<Command>)
    requires ValidNode(node) && IsListing(listing)
    ensures cmds == Phase2(listing, node, ethMap, rows, |rows|)
  {
    hide FamilyCommands, ValidNode, IsListing;
    cmds := [];
    for i := 0 to |rows|
      invariant cmds == Phase2(listing, node, ethMap, rows, i)
    {
      cmds := cmds + FamilyCommands(listing, node, ethMap, rows[i], V4)
          + FamilyCommands(listing, node, ethMap, rows[i], V6);
    }
  }

  /**
   * Relation selectors, then per lane its table and rules, then the destination rules
   * that Phases 3 and 4 claim.
   */
  ghost predicate IsRendered(listing: set<Cidr> -> seq<Cidr>, node: Node, ethMap: EthMap, raw: seq<RawSelector>,
                             cmds: seq<Command>)
    requires ValidNode(node) && IsListing(listing)
  {
    && LaneRows(node, ethMap).Ok?
    && exists selectors, selected ::
         && Accepted(node, ethMap, raw, selectors) && RendersSelectors(selectors, selected)
         && cmds == LaneRendering(listing, node, ethMap, selected, LaneRows(node, ethMap).value)
  }

  function LaneRendering(listing: set<Cidr> -> seq<Cidr>, node: Node, ethMap: EthMap, selected: seq<SelectorRule>,
                         rows: seq<LaneRow>): seq<Command>
    requires ValidNode(node) && IsListing(listing)
  {
    Selecteds(selected)
    + Phase2(listing, node, ethMap, rows, |rows|)
    + ToRules(FirstPerKey(SharedAndCross(listing, ethMap, rows)))
  }

  /** Rendering stops exactly when a selector or a lane allocation is refused. */
  method Render(listing: set<Cidr> -> seq<Cidr>, node: Node, ethMap: EthMap, raw: seq<RawSelector>)
      returns (r: Result<seq<Command>, RenderError>)
    requires ValidNode(node) && IsListing(listing)
    ensures r.Ok? <==> (exists s :: Accepted(node, ethMap, raw, s)) && LaneRows(node, ethMap).Ok?
    ensures r.Ok? ==> IsRendered(listing, node, ethMap, raw, r.value)
  {
    hide SharedAndCross, SharedCandidates, SortDescending, Phase2, ValidNode, IsListing, Accepted, RendersSelectors;
    hide FirstPerKey;
    var chosen;
    ghost var selectors;
    chosen, selectors := RenderRelationSelectionRules(node, ethMap, raw);
    if chosen.Err? {
      return Err(SelectorError(chosen.error));
    }
    var lanes := CollectLanes(node, ethMap);
    hide LaneRows;
    if lanes.Err? {
      return Err(LaneError(lanes.error));
    }
    var phase2 := RenderLanes(listing, node, ethMap, lanes.value);
    var claimed, rules := SharedInterfaceRules(listing, ethMap, lanes.value);
    claimed, rules := CrossRules(listing, ethMap, lanes.value, claimed, rules);
    return Ok(Selecteds(chosen.value) + phase2 + ToRules(rules));
  }

  // ------------------------------------------------ the destination rules of Phase 2

  /**
   * Lane `row` puts a destination rule for prefix `p` on its own interface: its table of
   * the family is not empty (and has a default if the lane is an access uplink), and
   * `p` is the interface's network or a connected destination of it.
   */
  predicate OwnPrefix(node: Node, row: LaneRow, f: Family, p: Cidr)
    requires ValidNode(node)
  {
    && LaneGroups(row, f) != map[] && (row.kind == AccessUplink ==> HasDefault(LaneGroups(row, f)))
    && row.ifname in node.interfaces && p in SourcePrefixes(node.interfaces[row.ifname], f, false)
  }

  function OwnRule(row: LaneRow, f: Family, p: Cidr): DestRule {
    DestRule(f, p, row.eth, row.priority, row.table)
  }

  /** The row's interface is one of the node's, under the runtime name of the row. */
  predicate RowOfNode(node: Node, ethMap: EthMap, row: LaneRow) {
    row.ifname in node.interfaces && row.ifname in ethMap && ethMap[row.ifname] == row.eth
  }

  lemma {:induction false} TableHasNoToRule(f: Family, row: LaneRow, dsts: seq<Cidr>, r: DestRule)
    requires forall d | d in dsts :: d in LaneGroups(row, f)
    ensures ToRule(r) !in TableCommands(f, row, dsts)
  {
    if dsts != [] {
      TableHasNoToRule(f, row, dsts[1..], r);
    }
  }

  lemma {:induction false} PrefixToRules(
      row: LaneRow, f: Family, prefixes: seq<Cidr>, eth: Name, own: bool, r: DestRule)
    ensures ToRule(r) in PrefixesCommands(row, f, prefixes, eth, own)
       <==> own && r.dst in prefixes && r == DestRule(f, r.dst, eth, row.priority, row.table)
  {
    if prefixes != [] {
      PrefixToRules(row, f, prefixes[1..], eth, own, r);
      assert prefixes == [prefixes[0]] + prefixes[1..];
    }
  }

  lemma {:induction false} RuleToRules(
      node: Node, ethMap: EthMap, row: LaneRow, f: Family, sources: seq<Name>, r: DestRule)
    requires ValidNode(node) && RowOfNode(node, ethMap, row)
    ensures ToRule(r) in RuleCommands(node, ethMap, row, f, sources)
       <==> row.ifname in sources && r.dst in SourcePrefixes(node.interfaces[row.ifname], f, false)
            && r == OwnRule(row, f, r.dst)
  {
    hide SourcePrefixes;
    if sources != [] {
      RuleToRules(node, ethMap, row, f, sources[1..], r);
      assert sources == [sources[0]] + sources[1..];
      var n := sources[0];
      if n in ethMap && n in node.interfaces {
        PrefixToRules(row, f, SourcePrefixes(node.interfaces[n], f, n != row.ifname), ethMap[n], n == row.ifname, r);
      }
    }
  }

  lemma {:induction false} LocalOriginHasNoToRule(
      node: Node, ethMap: EthMap, row: LaneRow, f: Family, names: seq<Name>, outgoing: seq<Ip>, r: DestRule)
    requires ValidNode(node)
    ensures ToRule(r) !in LocalOriginCommands(node, ethMap, row, f, names, outgoing)
  {
    hide SourceOfAddress, ValidNode;
    if outgoing != [] {
      LocalOriginHasNoToRule(node, ethMap, row, f, names, outgoing[..|outgoing| - 1], r);
    }
  }

  lemma FamilyToRules(
      listing: set<Cidr> -> seq<Cidr>, node: Node, ethMap: EthMap, row: LaneRow, f: Family, r: DestRule)
    requires ValidNode(node) && IsListing(listing) && RowOfNode(node, ethMap, row)
    ensures ToRule(r) in FamilyCommands(listing, node, ethMap, row, f)
       <==> OwnPrefix(node, row, f, r.dst) && r == OwnRule(row, f, r.dst)
  {
    var groups, sources := LaneGroups(row, f), [row.ifname] + row.shared;
    if groups != map[] {
      TableHasNoToRule(f, row, listing(groups.Keys), r);
      RuleToRules(node, ethMap, row, f, sources, r);
      LocalOriginHasNoToRule(node, ethMap, row, f, SortedNames(set n | n in sources), node.dnsOutgoing, r);
      hide TableCommands, RuleCommands, LocalOriginCommands, SourcePrefixes, ValidNode, IsListing, HasDefault;
    }
  }

  ghost predicate InLane(listing: set<Cidr> -> seq<Cidr>, node: Node, ethMap: EthMap, row: LaneRow, c: Command)
    requires ValidNode(node) && IsListing(listing)
  {
    c in FamilyCommands(listing, node, ethMap, row, V4) || c in FamilyCommands(listing, node, ethMap, row, V6)
  }

  lemma {:induction false} Phase2Members(
      listing: set<Cidr> -> seq<Cidr>, node: Node, ethMap: EthMap, rows: seq<LaneRow>, count: nat, c: Command)
    requires ValidNode(node) && IsListing(listing) && count <= |rows|
    ensures c in Phase2(listing, node, ethMap, rows, count)
       <==> exists i :: 0 <= i < count && InLane(listing, node, ethMap, rows[i], c)
    decreases count
  {
    hide FamilyCommands, ValidNode, IsListing;
    if count > 0 {
      Phase2Members(listing, node, ethMap, rows, count - 1, c);
    }
  }

  /** Phase 2 puts destination rules on the lanes' own interfaces, for their own prefixes, and nowhere else. */
  lemma Phase2DestinationRules(
      listing: set<Cidr> -> seq<Cidr>, node: Node, ethMap: EthMap, rows: seq<LaneRow>, r: DestRule)
    requires ValidNode(node) && IsListing(listing) && forall row | row in rows :: RowOfNode(node, ethMap, row)
    ensures ToRule(r) in Phase2(listing, node, ethMap, rows, |rows|)
       <==> exists row :: row in rows && OwnPrefix(node, row, r.family, r.dst) && r == OwnRule(row, r.family, r.dst)
  {
    Phase2Members(listing, node, ethMap, rows, |rows|, ToRule(r));
    forall row | row in rows
      ensures InLane(listing, node, ethMap, row, ToRule(r))
         <==> OwnPrefix(node, row, r.family, r.dst) && r == OwnRule(row, r.family, r.dst)
    {
      FamilyToRules(listing, node, ethMap, row, V4, r);
      FamilyToRules(listing, node, ethMap, row, V6, r);
      hide FamilyCommands, OwnPrefix, ValidNode, IsListing;
    }
    hide InLane, OwnPrefix, OwnRule, Phase2, ValidNode, IsListing;
    if row :| row in rows && OwnPrefix(node, row, r.family, r.dst) && r == OwnRule(row, r.family, r.dst) {
      var i :| 0 <= i < |rows| && rows[i] == row;
      assert InLane(listing, node, ethMap, rows[i], ToRule(r));
    }
  }

  /** The rows of the rendering carry the names and runtime names of the node. */
  lemma RowsOfNode(node: Node, ethMap: EthMap)
    requires ValidNode(node) && LaneRows(node, ethMap).Ok?
    ensures forall row | row in LaneRows(node, ethMap).value :: RowOfNode(node, ethMap, row)
    ensures NamesRise(LaneRows(node, ethMap).value)
  {
    var names := SortedNames(node.interfaces.Keys);
    LanesAreTheSurfaces(node, ethMap, names, |names|);
    hide RowsOf, SharedInterfaces, GroupsOf, PolicyRoutingAllocation, ValidNode, IsPolicyRoutingSurface;
  }

  // ------------------------------------------------------------ lanes without routes

  /** The command sends traffic of the family that enters the lane's interface to the lane's table. */
  predicate Enters(row: LaneRow, f: Family, c: Command) {
    || (c.FromRule? && c == FromRule(f, c.source, Some(row.eth), row.priority, row.table))
    || c == IifRule(f, row.eth, row.priority, row.table)
  }

  /** The command leaves the lane's table of the family with a route, if only to drop. */
  predicate FillsTable(row: LaneRow, f: Family, c: Command) {
    || (c.RouteReplace? && c.family == f && c.table == row.table)
    || (f == V4 && c == Blackhole(row.table))
  }

  ghost predicate Entered(cmds: seq<Command>, row: LaneRow, f: Family) {
    exists c :: c in cmds && Enters(row, f, c)
  }

  ghost predicate Filled(cmds: seq<Command>, row: LaneRow, f: Family) {
    exists c :: c in cmds && FillsTable(row, f, c)
  }

  lemma {:induction false} TableEntersNothing(f: Family, row: LaneRow, dsts: seq<Cidr>)
    requires forall d | d in dsts :: d in LaneGroups(row, f)
    ensures !Entered(TableCommands(f, row, dsts), row, f)
    ensures dsts != [] ==> Filled(TableCommands(f, row, dsts), row, f)
  {
    if dsts != [] {
      TableEntersNothing(f, row, dsts[1..]);
      var c := TableCommands(f, row, dsts)[0];
      assert c in TableCommands(f, row, dsts) && FillsTable(row, f, c);
    }
  }

  lemma OwnInterfaceEntered(node: Node, ethMap: EthMap, row: LaneRow, f: Family)
    requires ValidNode(node) && RowOfNode(node, ethMap, row)
    ensures Entered(RuleCommands(node, ethMap, row, f, [row.ifname] + row.shared), row, f)
  {
    hide SourcePrefixes;
    var sources := [row.ifname] + row.shared;
    var prefixes := SourcePrefixes(node.interfaces[row.ifname], f, false);
    assert sources[0] == row.ifname;
    var cmds := RuleCommands(node, ethMap, row, f, sources);
    if prefixes != [] {
      assert PrefixesCommands(row, f, prefixes, row.eth, true)[0]
          == FromRule(f, prefixes[0], Some(row.eth), row.priority, row.table);
      assert cmds[0] == FromRule(f, prefixes[0], Some(row.eth), row.priority, row.table);
    } else {
      assert cmds[0] == IifRule(f, row.eth, row.priority, row.table);
    }
    assert cmds[0] in cmds && Enters(row, f, cmds[0]);
  }

  /** The lane's own rules lead into its table. */
  predicate LaneEnters(row: LaneRow, f: Family) {
    if row.kind == AccessUplink then HasDefault(LaneGroups(row, f))
    else LaneGroups(row, f) != map[] || f == V4 || row.routes4 == map[]
  }

  /** The lane puts a route or a blackhole into its table. */
  predicate LaneFills(row: LaneRow, f: Family) {
    LaneGroups(row, f) != map[] || (f == V4 && row.kind != AccessUplink)
  }

  /** What a lane's own Phase 2 commands do for traffic that enters on its interface. */
  lemma LaneIsEnteredIff(
      listing: set<Cidr> -> seq<Cidr>, node: Node, ethMap: EthMap, row: LaneRow, f: Family)
    requires ValidNode(node) && IsListing(listing) && RowOfNode(node, ethMap, row)
    ensures Entered(FamilyCommands(listing, node, ethMap, row, f), row, f) <==> LaneEnters(row, f)
    ensures Filled(FamilyCommands(listing, node, ethMap, row, f), row, f) <==> LaneFills(row, f)
  {
    var groups, sources := LaneGroups(row, f), [row.ifname] + row.shared;
    var cmds := FamilyCommands(listing, node, ethMap, row, f);
    if groups != map[] {
      var dsts := listing(groups.Keys);
      assert dsts != [] by {
        var d :| d in groups;
        assert d in dsts;
      }
      TableEntersNothing(f, row, dsts);
      OwnInterfaceEntered(node, ethMap, row, f);
      hide TableCommands, RuleCommands, LocalOriginCommands, ValidNode, IsListing, HasDefault, Enters, FillsTable;
      if row.kind != AccessUplink || HasDefault(groups) {
        var c :| c in RuleCommands(node, ethMap, row, f, sources) && Enters(row, f, c);
        assert c in cmds;
      } else {
        assert cmds == TableCommands(f, row, dsts);
      }
      var c :| c in TableCommands(f, row, dsts) && FillsTable(row, f, c);
      assert c in cmds;
    } else if row.kind != AccessUplink && (f == V4 || row.routes4 == map[]) {
      var c := cmds[|cmds| - 1];
      assert c in cmds && Enters(row, f, c);
      assert f == V4 ==> cmds[0] in cmds && FillsTable(row, f, cmds[0]);
    }
  }

  // ------------------------------------------------ an interface's prefixes, in fields

  /** The address's network, if it is longer than two addresses. */
  predicate IsOwnNetwork(iface: Iface, f: Family, p: Cidr)
    requires ValidIface(iface)
  {
    match (if f == V4 then iface.addr4 else iface.addr6)
    case None => false
    case Some(c) => c.len + 2 <= Width(f) && p == Network(c)
  }

  /** A connected destination of the family, or with `reachable` that of a route with an access node. */
  ghost predicate IsRoutePrefix(iface: Iface, f: Family, reachable: bool, p: Cidr) {
    exists r ::
      && r in Routes(iface, f) && (r.proto == ProtoConnected || (reachable && r.intent.accessNode))
      && r.dst.Some? && r.dst.value.ip.family == f && !(r.dst.value.len == 0 && r.dst.value.ip.value == 0)
      && p == NormalizePrefix(r.dst.value) && Valid(p)
  }

  lemma {:induction false} RoutePrefixMembers(routes: seq<Route>, f: Family, reachable: bool, p: Cidr)
    ensures p in RoutePrefixes(routes, f, reachable) <==>
              exists r ::
                && r in routes && (r.proto == ProtoConnected || (reachable && r.intent.accessNode))
                && r.dst.Some? && r.dst.value.ip.family == f && !(r.dst.value.len == 0 && r.dst.value.ip.value == 0)
                && p == NormalizePrefix(r.dst.value) && Valid(p)
  {
    hide NormalizePrefix, Valid;
    if routes != [] {
      RoutePrefixMembers(routes[1..], f, reachable, p);
      assert routes == [routes[0]] + routes[1..];
      if routes[0].dst.Some? {
        var c := routes[0].dst.value;
        assert IsDefault(c) <==> c.len == 0 && c.ip.value == 0 by {
          assert c == Cidr(Ip(c.ip.family, c.ip.value), c.len) && (c.ip.family == V4 || c.ip.family == V6);
        }
      }
    }
  }

  /** The prefixes from which, and on the own interface to which, a lane's rules lead into its table. */
  lemma SourcePrefixesIff(iface: Iface, f: Family, reachable: bool, p: Cidr)
    requires ValidIface(iface)
    ensures p in SourcePrefixes(iface, f, reachable)
       <==> IsOwnNetwork(iface, f, p) || IsRoutePrefix(iface, f, reachable, p)
  {
    hide Network, NormalizePrefix, Valid, RoutePrefixes, Deduped;
    RoutePrefixMembers(Routes(iface, f), f, reachable, p);
  }
}
