/**
 * Which packets lanes of smaller priority numbers take from a claim of Phase 3 or 4
 * (clabgen/s88/CM/linux_policy_routes.py), read off the node and its lane rows.
 */
module PolicyCapture {
  import opened Arithmetic
  import opened Common
  import opened Sorting
  import opened Addressing
  import opened NodeModel
  import opened PolicyGroups
  import opened PolicyLanes
  import opened DestinationRules
  import opened SharedRules
  import opened CrossLanes
  import opened RelationSelection
  import opened PolicyRender
  import opened RuleOrder
  import opened DenyByDefault
  import opened ForwardingValidation
  import opened PolicyLookup

  // ------------------------------------------------------ what a lane does to a packet

  function SourcesOf(row: LaneRow): seq<Name> {
    [row.ifname] + row.shared
  }

  /** The packet enters on the interface, from one of its prefixes or, on the lane's own, to one of them. */
  ghost predicate TakesOn(node: Node, ethMap: EthMap, row: LaneRow, n: Name, p: Probe)
    requires ValidNode(node)
  {
    && n in ethMap && n in node.interfaces && ethMap[n] == p.iif
    && exists c :: c in SourcePrefixes(node.interfaces[n], p.dst.family, n != row.ifname)
                   && (Within(c, p.src) || (n == row.ifname && Within(c, p.dst)))
  }

  /** The lane's own interface has no prefix of the family, and the packet enters on it. */
  predicate BareTakes(node: Node, ethMap: EthMap, row: LaneRow, p: Probe)
    requires ValidNode(node)
  {
    && row.ifname in ethMap && row.ifname in node.interfaces && ethMap[row.ifname] == p.iif
    && SourcePrefixes(node.interfaces[row.ifname], p.dst.family, false) == []
  }

  /** One of the lane's interfaces takes the packet by a prefix. */
  ghost predicate PrefixTakes(node: Node, ethMap: EthMap, row: LaneRow, p: Probe)
    requires ValidNode(node)
  {
    exists n :: n in SourcesOf(row) && TakesOn(node, ethMap, row, n, p)
  }

  /** The packet comes from an address of the node's resolver that is on an interface of the lane. */
  ghost predicate ResolverTakes(node: Node, row: LaneRow, p: Probe)
    requires ValidNode(node)
  {
    && p.src in node.dnsOutgoing && p.src.family == p.dst.family
    && exists n :: n in SourcesOf(row) && HasAddress(node, n, p.src)
  }

  predicate HasAddress(node: Node, n: Name, a: Ip)
    requires ValidNode(node)
  {
    n in node.interfaces && Addr(node.interfaces[n], a.family).Some?
    && InNetwork(a, Addr(node.interfaces[n], a.family).value)
  }

  /** The table of the family is not empty, and in an uplink lane it has a default. */
  predicate HasRules(row: LaneRow, f: Family) {
    LaneGroups(row, f) != map[] && (row.kind == AccessUplink ==> KnowsDefault(row, f))
  }

  /** The table of the family has a default route, of either family. */
  predicate KnowsDefault(row: LaneRow, f: Family) {
    var groups := if f == V4 then row.routes4 else row.routes6;
    Cidr(Ip(V4, 0), 0) in groups || Cidr(Ip(V6, 0), 0) in groups
  }

  /** A rule into the lane's own table matches the packet. */
  ghost predicate LaneTakes(node: Node, ethMap: EthMap, row: LaneRow, p: Probe)
    requires ValidNode(node)
  {
    var f := p.dst.family;
    if LaneGroups(row, f) == map[] then
      row.kind != AccessUplink && (f == V4 || row.routes4 == map[]) && row.eth == p.iif
    else
      && HasRules(row, f)
      && (|| PrefixTakes(node, ethMap, row, p) || BareTakes(node, ethMap, row, p)
          || (KnowsDefault(row, f) && ResolverTakes(node, row, p)))
  }

  /** A main-table check of the lane matches the packet. */
  ghost predicate LaneChecks(node: Node, ethMap: EthMap, row: LaneRow, p: Probe)
    requires ValidNode(node)
  {
    row.mainSuppress.Some? && HasRules(row, p.dst.family) && PrefixTakes(node, ethMap, row, p)
  }

  /** The lane's table reaches the subnet from which the node's resolver asks. */
  ghost predicate ResolverSubnet(node: Node, ethMap: EthMap, row: LaneRow, p: Probe)
    requires ValidNode(node)
  {
    var names := SortedNames(set n | n in SourcesOf(row));
    exists a :: a in node.dnsOutgoing && a.family == p.dst.family && HasSubnet(node, ethMap, names, a, p.dst)
  }

  predicate HasSubnet(node: Node, ethMap: EthMap, names: seq<Name>, a: Ip, dst: Ip)
    requires ValidNode(node)
  {
    && SourceOfAddress(node, names, a.family, a).Some? && SourceOfAddress(node, names, a.family, a).value in ethMap
    && !IsDefault(Network(SourceAddr(node, names, a.family, a)))
    && Within(Network(SourceAddr(node, names, a.family, a)), dst)
  }

  /** The lane gives its table an answer for the packet: a route, the blackhole, or the resolver's subnet. */
  ghost predicate LaneAnswers(node: Node, ethMap: EthMap, row: LaneRow, p: Probe)
    requires ValidNode(node)
  {
    var f := p.dst.family;
    if LaneGroups(row, f) == map[] then f == V4 && row.kind != AccessUplink
    else
      || (exists d :: d in LaneGroups(row, f) && Within(d, p.dst))
      || (KnowsDefault(row, f) && ResolverSubnet(node, ethMap, row, p))
  }

  ghost predicate TableAnswers(node: Node, ethMap: EthMap, rows: seq<LaneRow>, t: int, p: Probe)
    requires ValidNode(node)
  {
    exists row :: row in rows && row.table == t && LaneAnswers(node, ethMap, row, p)
  }

  // -------------------------------------------------------- the four ways to be captured

  /** An accepted selector below `n` matches the packet, and its table answers. */
  ghost predicate BySelector(node: Node, ethMap: EthMap, raw: seq<RawSelector>, rows: seq<LaneRow>, p: Probe, n: int)
    requires ValidNode(node)
  {
    exists s, v ::
      && s in raw && ValidateSelector(node, ethMap, s) == Ok(v) && v.priority < n
      && Matches(Selected(RuleOfSelector(v)), p) && TableAnswers(node, ethMap, rows, v.tableId, p)
  }

  /** A lane checks the main table below `n`, and the main table answers. */
  ghost predicate ByMainCheck(
      node: Node, ethMap: EthMap, rows: seq<LaneRow>, main: Ip -> bool, p: Probe, n: int)
    requires ValidNode(node)
  {
    && main(p.dst)
    && exists row :: row in rows && row.mainSuppress.Some? && row.mainSuppress.value < n
                     && LaneChecks(node, ethMap, row, p)
  }

  /** A lane below `n` takes the packet, and its table answers. */
  ghost predicate ByLane(node: Node, ethMap: EthMap, rows: seq<LaneRow>, p: Probe, n: int)
    requires ValidNode(node)
  {
    exists row :: row in rows && row.priority < n && LaneTakes(node, ethMap, row, p)
                  && TableAnswers(node, ethMap, rows, row.table, p)
  }

  /**
   * The key is claimed below `n`: every lane that serves it has a number below `n`, or
   * none serves it and an upstream lane below `n` on its ingress has a partner for it.
   */
  ghost predicate ClaimedBelow(ethMap: EthMap, rows: seq<LaneRow>, k: Key, n: int) {
    if exists row :: row in rows && Serves(ethMap, row, k) then
      forall row | row in rows && Serves(ethMap, row, k) :: row.priority < n
    else
      exists us, ds ::
        && us in rows && ds in rows && us.eth == k.iif && us.priority < n
        && us.access.Some? && IsUpstream(us, us.access.value) && Partner(us, k)(ds)
  }

  /** Another key that matches the packet is claimed below `n`. */
  ghost predicate ByClaim(ethMap: EthMap, rows: seq<LaneRow>, p: Probe, n: int) {
    exists k: Key :: k.family == p.dst.family && k.iif == p.iif && Within(k.dst, p.dst)
                     && ClaimedBelow(ethMap, rows, k, n)
  }

  ghost predicate Captured(
      node: Node, ethMap: EthMap, raw: seq<RawSelector>, rows: seq<LaneRow>, main: Ip -> bool, p: Probe, n: int)
    requires ValidNode(node)
  {
    || BySelector(node, ethMap, raw, rows, p, n) || ByMainCheck(node, ethMap, rows, main, p, n)
    || ByLane(node, ethMap, rows, p, n) || ByClaim(ethMap, rows, p, n)
  }

  // ------------------------------------------------------- the commands of one lane

  lemma {:induction false} TableMembers(f: Family, row: LaneRow, dsts: seq<Cidr>, c: Command)
    requires forall d | d in dsts :: d in LaneGroups(row, f)
    ensures c in TableCommands(f, row, dsts)
       <==> exists d :: d in dsts && c == RouteReplace(f, row.table, d, set h | h in LaneGroups(row, f)[d])
  {
    if dsts != [] {
      TableMembers(f, row, dsts[1..], c);
      assert dsts == [dsts[0]] + dsts[1..];
    }
  }

  lemma {:induction false} PrefixesMembers(
      row: LaneRow, f: Family, prefixes: seq<Cidr>, eth: Name, own: bool, c: Command)
    ensures c in PrefixesCommands(row, f, prefixes, eth, own)
       <==> exists x :: x in prefixes && c in PrefixCommands(row, f, x, eth, own)
  {
    hide PrefixCommands;
    if prefixes != [] {
      PrefixesMembers(row, f, prefixes[1..], eth, own, c);
      assert prefixes == [prefixes[0]] + prefixes[1..];
    }
  }

  /** The command is one that interface `n` contributes to the lane. */
  ghost predicate SourceCommand(node: Node, ethMap: EthMap, row: LaneRow, f: Family, n: Name, c: Command)
    requires ValidNode(node)
  {
    && n in ethMap && n in node.interfaces
    && (var prefixes := SourcePrefixes(node.interfaces[n], f, n != row.ifname);
        || (exists x :: x in prefixes && c in PrefixCommands(row, f, x, ethMap[n], n == row.ifname))
        || (prefixes == [] && n == row.ifname && c == IifRule(f, ethMap[n], row.priority, row.table)))
  }

  lemma {:induction false} RuleMembers(
      node: Node, ethMap: EthMap, row: LaneRow, f: Family, sources: seq<Name>, c: Command)
    requires ValidNode(node)
    ensures c in RuleCommands(node, ethMap, row, f, sources)
       <==> exists n :: n in sources && SourceCommand(node, ethMap, row, f, n, c)
  {
    hide SourcePrefixes, PrefixCommands, PrefixesCommands;
    if sources != [] {
      RuleMembers(node, ethMap, row, f, sources[1..], c);
      assert sources == [sources[0]] + sources[1..];
      FirstSourceMembers(node, ethMap, row, f, sources, c);
      hide SourceCommand, RuleCommands;
    }
  }

  lemma FirstSourceMembers(node: Node, ethMap: EthMap, row: LaneRow, f: Family, sources: seq<Name>, c: Command)
    requires ValidNode(node) && sources != []
    ensures c in RuleCommands(node, ethMap, row, f, sources)
       <==> SourceCommand(node, ethMap, row, f, sources[0], c) || c in RuleCommands(node, ethMap, row, f, sources[1..])
  {
    hide SourcePrefixes, PrefixCommands, PrefixesCommands;
    var n := sources[0];
    if n in ethMap && n in node.interfaces {
      PrefixesMembers(row, f, SourcePrefixes(node.interfaces[n], f, n != row.ifname), ethMap[n], n == row.ifname, c);
    }
  }

  /** The command is one that the resolver's address `a` contributes to the lane. */
  predicate OriginCommand(
      node: Node, ethMap: EthMap, row: LaneRow, f: Family, names: seq<Name>, a: Ip, c: Command)
    requires ValidNode(node)
  {
    && a.family == f && SourceOfAddress(node, names, f, a).Some?
    && (|| c == FromRule(f, Cidr(a, Width(f)), None, row.priority, row.table)
        || (var (source, subnet) := (SourceOfAddress(node, names, f, a).value,
                                     Network(SourceAddr(node, names, f, a)));
            && source in ethMap && !IsDefault(subnet)
            && c == RouteReplace(f, row.table, subnet, {Hop(None, ethMap[source])})))
  }

  lemma {:induction false} LocalOriginMembers(
      node: Node, ethMap: EthMap, row: LaneRow, f: Family, names: seq<Name>, outgoing: seq<Ip>, c: Command)
    requires ValidNode(node)
    ensures c in LocalOriginCommands(node, ethMap, row, f, names, outgoing)
       <==> exists a :: a in outgoing && OriginCommand(node, ethMap, row, f, names, a, c)
  {
    hide SourceOfAddress, SourceAddr, ValidNode, Network;
    if outgoing != [] {
      var (rest, a) := (outgoing[..|outgoing| - 1], outgoing[|outgoing| - 1]);
      LocalOriginMembers(node, ethMap, row, f, names, rest, c);
      assert outgoing == rest + [a];
      LastOriginMembers(node, ethMap, row, f, names, outgoing, c);
      hide OriginCommand, LocalOriginCommands;
    }
  }

  lemma LastOriginMembers(
      node: Node, ethMap: EthMap, row: LaneRow, f: Family, names: seq<Name>, outgoing: seq<Ip>, c: Command)
    requires ValidNode(node) && outgoing != []
    ensures (var (rest, a) := (outgoing[..|outgoing| - 1], outgoing[|outgoing| - 1]);
             c in LocalOriginCommands(node, ethMap, row, f, names, outgoing)
             <==> || c in LocalOriginCommands(node, ethMap, row, f, names, rest)
                  || (a !in rest && OriginCommand(node, ethMap, row, f, names, a, c)))
  {
    hide SourceOfAddress, SourceAddr, ValidNode, Network;
  }

  /** The command is one of those the lane renders for the family. */
  ghost predicate IsLaneCommand(node: Node, ethMap: EthMap, row: LaneRow, f: Family, c: Command)
    requires ValidNode(node)
  {
    if LaneGroups(row, f) == map[] then
      && row.kind != AccessUplink && (f == V4 || row.routes4 == map[])
      && ((f == V4 && c == Blackhole(row.table)) || c == IifRule(f, row.eth, row.priority, row.table))
    else
      || (exists d :: d in LaneGroups(row, f)
                      && c == RouteReplace(f, row.table, d, set h | h in LaneGroups(row, f)[d]))
      || (HasRules(row, f)
          && (|| (exists n :: n in SourcesOf(row) && SourceCommand(node, ethMap, row, f, n, c))
              || (KnowsDefault(row, f) && IsOrigin(node, ethMap, row, f, c))))
  }

  ghost predicate IsOrigin(node: Node, ethMap: EthMap, row: LaneRow, f: Family, c: Command)
    requires ValidNode(node)
  {
    var names := SortedNames(set n | n in SourcesOf(row));
    exists a :: a in node.dnsOutgoing && OriginCommand(node, ethMap, row, f, names, a, c)
  }

  lemma FamilyMembers(
      listing: set<Cidr> -> seq<Cidr>, node: Node, ethMap: EthMap, row: LaneRow, f: Family, c: Command)
    requires ValidNode(node) && IsListing(listing)
    ensures c in FamilyCommands(listing, node, ethMap, row, f) <==> IsLaneCommand(node, ethMap, row, f, c)
  {
    hide TableCommands, RuleCommands, LocalOriginCommands, SourceCommand, OriginCommand, ValidNode;
    var groups, sources := LaneGroups(row, f), [row.ifname] + row.shared;
    if groups != map[] {
      TableMembers(f, row, listing(groups.Keys), c);
      RuleMembers(node, ethMap, row, f, sources, c);
      LocalOriginMembers(node, ethMap, row, f, SortedNames(set n | n in sources), node.dnsOutgoing, c);
    }
  }

  // --------------------------------------------------- which of them match the packet

  ghost predicate Rules(c: Command, p: Probe) {
    LaneRule(c).Some? && Matches(c, p)
  }

  ghost predicate Checks(c: Command, p: Probe) {
    c.MainSuppressed? && Matches(c, p)
  }

  lemma PrefixRules(row: LaneRow, f: Family, x: Cidr, eth: Name, own: bool, p: Probe)
    requires f == p.dst.family
    ensures (exists c :: c in PrefixCommands(row, f, x, eth, own) && Rules(c, p))
       <==> eth == p.iif && (Within(x, p.src) || (own && Within(x, p.dst)))
    ensures (exists c :: c in PrefixCommands(row, f, x, eth, own) && Checks(c, p))
       <==> row.mainSuppress.Some? && eth == p.iif && (Within(x, p.src) || (own && Within(x, p.dst)))
  {
    hide Within;
    var cmds := PrefixCommands(row, f, x, eth, own);
    var (from, to) := (FromRule(f, x, Some(eth), row.priority, row.table),
                       ToRule(DestRule(f, x, eth, row.priority, row.table)));
    assert from in cmds && (own ==> to in cmds);
    if row.mainSuppress.Some? {
      assert MainSuppressed(f, false, x, eth, row.mainSuppress.value) in cmds;
      assert own ==> MainSuppressed(f, true, x, eth, row.mainSuppress.value) in cmds;
    }
  }

  lemma SourceRules(node: Node, ethMap: EthMap, row: LaneRow, n: Name, p: Probe)
    requires ValidNode(node)
    ensures (exists c :: SourceCommand(node, ethMap, row, p.dst.family, n, c) && Rules(c, p))
       <==> TakesOn(node, ethMap, row, n, p) || (n == row.ifname && BareTakes(node, ethMap, row, p))
    ensures (exists c :: SourceCommand(node, ethMap, row, p.dst.family, n, c) && Checks(c, p))
       <==> row.mainSuppress.Some? && TakesOn(node, ethMap, row, n, p)
  {
    hide PrefixCommands, SourcePrefixes, Within, ValidNode;
    if n in ethMap && n in node.interfaces {
      var f, eth, own := p.dst.family, ethMap[n], n == row.ifname;
      forall x
        ensures (exists c :: c in PrefixCommands(row, f, x, eth, own) && Rules(c, p))
           <==> eth == p.iif && (Within(x, p.src) || (own && Within(x, p.dst)))
        ensures (exists c :: c in PrefixCommands(row, f, x, eth, own) && Checks(c, p))
           <==> row.mainSuppress.Some? && eth == p.iif && (Within(x, p.src) || (own && Within(x, p.dst)))
      {
        PrefixRules(row, f, x, eth, own, p);
      }
      var bare := IifRule(f, eth, row.priority, row.table);
      assert Rules(bare, p) <==> eth == p.iif;
    }
  }

  lemma {:induction false} SourceExists(node: Node, names: seq<Name>, a: Ip)
    requires ValidNode(node)
    ensures SourceOfAddress(node, names, a.family, a).Some? <==> exists n :: n in names && HasAddress(node, n, a)
  {
    hide ValidNode, InNetwork;
    if names != [] {
      SourceExists(node, names[1..], a);
      assert names == [names[0]] + names[1..];
      assert HasAddress(node, names[0], a) ==> names[0] in names;
    }
  }

  /** A prefix of full length holds its own address only. */
  lemma HostPrefix(c: Cidr, a: Ip, other: Ip)
    requires Valid(c) && InNetwork(a, c)
    ensures Within(Cidr(a, Width(a.family)), other) <==> other == a
  {
    SameBlock(c, a.value);
    var host := Cidr(a, Width(a.family));
    assert Valid(host);
    assert NumAddresses(host) == 1 by {
      BlockSize(host);
    }
    assert NetworkAddress(host) == a.value && Broadcast(host) == a.value;
  }

  lemma OriginAt(node: Node, ethMap: EthMap, row: LaneRow, names: seq<Name>, p: Probe, a: Ip, c: Command)
    requires ValidNode(node) && OriginCommand(node, ethMap, row, p.dst.family, names, a, c)
    ensures a.family == p.dst.family && !Checks(c, p) && (Rules(c, p) ==> a == p.src)
    ensures exists n :: n in names && HasAddress(node, n, a)
  {
    hide Within, SourceAddr, SourceOfAddress, InNetwork, Network;
    SourceExists(node, names, a);
    var n :| n in names && HasAddress(node, n, a);
    HostPrefix(Addr(node.interfaces[n], a.family).value, a, p.src);
  }

  lemma OriginHere(node: Node, ethMap: EthMap, row: LaneRow, names: seq<Name>, p: Probe, n: Name)
    requires ValidNode(node) && p.src.family == p.dst.family && n in names && HasAddress(node, n, p.src)
    ensures (var from := FromRule(p.dst.family, Cidr(p.src, Width(p.dst.family)), None, row.priority, row.table);
             OriginCommand(node, ethMap, row, p.dst.family, names, p.src, from) && Rules(from, p))
  {
    hide Within, SourceAddr, SourceOfAddress, InNetwork, Network;
    SourceExists(node, names, p.src);
    HostPrefix(Addr(node.interfaces[n], p.src.family).value, p.src, p.src);
  }

  lemma OriginRules(node: Node, ethMap: EthMap, row: LaneRow, p: Probe)
    requires ValidNode(node)
    ensures (exists c :: IsOrigin(node, ethMap, row, p.dst.family, c) && Rules(c, p)) <==> ResolverTakes(node, row, p)
    ensures forall c :: IsOrigin(node, ethMap, row, p.dst.family, c) ==> !Checks(c, p)
  {
    hide OriginCommand, HasAddress, ValidNode, Rules, Checks, SourcesOf;
    var f := p.dst.family;
    var names := SortedNames(set n | n in SourcesOf(row));
    assert forall n :: n in names <==> n in SourcesOf(row);
    forall a, c | OriginCommand(node, ethMap, row, f, names, a, c)
      ensures !Checks(c, p) && a.family == f && (Rules(c, p) ==> a == p.src)
      ensures exists n :: n in names && HasAddress(node, n, a)
    {
      OriginAt(node, ethMap, row, names, p, a, c);
    }
    if ResolverTakes(node, row, p) {
      var n :| n in SourcesOf(row) && HasAddress(node, n, p.src);
      var from := FromRule(f, Cidr(p.src, Width(f)), None, row.priority, row.table);
      OriginHere(node, ethMap, row, names, p, n);
      assert IsOrigin(node, ethMap, row, f, from) && Rules(from, p);
    }
  }

  /** The resolver's routes answer exactly for the subnets it asks from; interfaces contribute no routes. */
  lemma OriginAnswers(node: Node, ethMap: EthMap, row: LaneRow, p: Probe)
    requires ValidNode(node)
    ensures (exists c :: IsOrigin(node, ethMap, row, p.dst.family, c) && AnswersFor(c, row.table, p))
       <==> ResolverSubnet(node, ethMap, row, p)
    ensures forall n, c :: SourceCommand(node, ethMap, row, p.dst.family, n, c) ==> !AnswersFor(c, row.table, p)
  {
    hide Within, SourceAddr, SourceOfAddress, Network, ValidNode, SourcePrefixes, IsDefault;
    var f := p.dst.family;
    var names := SortedNames(set n | n in SourcesOf(row));
    if ResolverSubnet(node, ethMap, row, p) {
      var a :| a in node.dnsOutgoing && a.family == f && HasSubnet(node, ethMap, names, a, p.dst);
      var source := SourceOfAddress(node, names, f, a).value;
      var c := RouteReplace(f, row.table, Network(SourceAddr(node, names, f, a)), {Hop(None, ethMap[source])});
      assert OriginCommand(node, ethMap, row, f, names, a, c);
      assert IsOrigin(node, ethMap, row, f, c) && AnswersFor(c, row.table, p);
    }
  }

  /** What concerns the packet in a lane is among the lane's commands for the packet's family. */
  lemma ForFamily(
      listing: set<Cidr> -> seq<Cidr>, node: Node, ethMap: EthMap, row: LaneRow, p: Probe, t: int, c: Command)
    requires ValidNode(node) && IsListing(listing)
    ensures IsLaneCommand(node, ethMap, row, p.dst.family, c) ==> InLane(listing, node, ethMap, row, c)
    ensures InLane(listing, node, ethMap, row, c) && (Rules(c, p) || Checks(c, p) || AnswersFor(c, t, p)) ==>
              IsLaneCommand(node, ethMap, row, p.dst.family, c) && AtLanePriority(row, c)
  {
    hide IsLaneCommand, FamilyCommands, ValidNode, IsListing, Within;
    FamilyMembers(listing, node, ethMap, row, p.dst.family, c);
    assert p.dst.family == V4 || p.dst.family == V6;
    if InLane(listing, node, ethMap, row, c) {
      LaneCommand(listing, node, ethMap, row, c, p.dst.family);
      assert Rules(c, p) || Checks(c, p) || AnswersFor(c, t, p) ==> OfFamily(c, p.dst.family);
    }
  }

  ghost predicate SomeRule(node: Node, ethMap: EthMap, row: LaneRow, p: Probe)
    requires ValidNode(node)
  {
    exists c :: IsLaneCommand(node, ethMap, row, p.dst.family, c) && Rules(c, p)
  }

  ghost predicate SomeCheck(node: Node, ethMap: EthMap, row: LaneRow, p: Probe)
    requires ValidNode(node)
  {
    exists c :: IsLaneCommand(node, ethMap, row, p.dst.family, c) && Checks(c, p)
  }

  ghost predicate SomeAnswer(node: Node, ethMap: EthMap, row: LaneRow, p: Probe)
    requires ValidNode(node)
  {
    exists c :: IsLaneCommand(node, ethMap, row, p.dst.family, c) && AnswersFor(c, row.table, p)
  }

  lemma EmptyLaneMeaning(node: Node, ethMap: EthMap, row: LaneRow, p: Probe)
    requires ValidNode(node) && LaneGroups(row, p.dst.family) == map[]
    ensures SomeRule(node, ethMap, row, p) <==> LaneTakes(node, ethMap, row, p)
    ensures SomeCheck(node, ethMap, row, p) <==> LaneChecks(node, ethMap, row, p)
    ensures SomeAnswer(node, ethMap, row, p) <==> LaneAnswers(node, ethMap, row, p)
  {
    var f := p.dst.family;
    var iif := IifRule(f, row.eth, row.priority, row.table);
    assert Rules(iif, p) <==> row.eth == p.iif;
    assert LaneTakes(node, ethMap, row, p) ==> IsLaneCommand(node, ethMap, row, f, iif);
    var drop := Blackhole(row.table);
    assert LaneAnswers(node, ethMap, row, p) ==>
        IsLaneCommand(node, ethMap, row, f, drop) && AnswersFor(drop, row.table, p);
  }

  lemma FullLaneHas(node: Node, ethMap: EthMap, row: LaneRow, p: Probe)
    requires ValidNode(node) && LaneGroups(row, p.dst.family) != map[]
    ensures LaneTakes(node, ethMap, row, p) ==> SomeRule(node, ethMap, row, p)
    ensures LaneChecks(node, ethMap, row, p) ==> SomeCheck(node, ethMap, row, p)
  {
    hide SourceCommand, TakesOn, BareTakes, IsOrigin, ResolverTakes, KnowsDefault, ValidNode, Rules, Checks;
    var f := p.dst.family;
    if n :| n in SourcesOf(row) && TakesOn(node, ethMap, row, n, p) {
      SourceRules(node, ethMap, row, n, p);
    }
    if BareTakes(node, ethMap, row, p) {
      assert row.ifname in SourcesOf(row);
      SourceRules(node, ethMap, row, row.ifname, p);
    }
    OriginRules(node, ethMap, row, p);
    hide SourcesOf;
  }

  lemma FullLaneTakes(node: Node, ethMap: EthMap, row: LaneRow, p: Probe)
    requires ValidNode(node) && LaneGroups(row, p.dst.family) != map[]
    ensures SomeRule(node, ethMap, row, p) <==> LaneTakes(node, ethMap, row, p)
    ensures SomeCheck(node, ethMap, row, p) <==> LaneChecks(node, ethMap, row, p)
  {
    hide SourceCommand, TakesOn, BareTakes, IsOrigin, ResolverTakes, KnowsDefault, ValidNode;
    var f := p.dst.family;
    OriginRules(node, ethMap, row, p);
    assert row.ifname in SourcesOf(row);
    hide SourcesOf;
    if SomeRule(node, ethMap, row, p) {
      var c :| IsLaneCommand(node, ethMap, row, f, c) && Rules(c, p);
      if n :| n in SourcesOf(row) && SourceCommand(node, ethMap, row, f, n, c) {
        SourceRules(node, ethMap, row, n, p);
      }
    }
    if SomeCheck(node, ethMap, row, p) {
      var c :| IsLaneCommand(node, ethMap, row, f, c) && Checks(c, p);
      if n :| n in SourcesOf(row) && SourceCommand(node, ethMap, row, f, n, c) {
        SourceRules(node, ethMap, row, n, p);
      }
    }
    FullLaneHas(node, ethMap, row, p);
  }

  lemma FullLaneAnswers(node: Node, ethMap: EthMap, row: LaneRow, p: Probe)
    requires ValidNode(node) && LaneGroups(row, p.dst.family) != map[]
    ensures SomeAnswer(node, ethMap, row, p) <==> LaneAnswers(node, ethMap, row, p)
  {
    hide SourceCommand, IsOrigin, ResolverSubnet, KnowsDefault, ValidNode, SourcesOf;
    var f := p.dst.family;
    OriginAnswers(node, ethMap, row, p);
    if d :| d in LaneGroups(row, f) && Within(d, p.dst) {
      var c := RouteReplace(f, row.table, d, set h | h in LaneGroups(row, f)[d]);
      assert IsLaneCommand(node, ethMap, row, f, c) && AnswersFor(c, row.table, p);
    }
  }

  /** A lane's rules, main-table checks and routes concern a packet exactly as the node and the lane say. */
  lemma LaneMeaning(listing: set<Cidr> -> seq<Cidr>, node: Node, ethMap: EthMap, row: LaneRow, p: Probe)
    requires ValidNode(node) && IsListing(listing)
    ensures (exists c :: InLane(listing, node, ethMap, row, c) && Rules(c, p)) <==> LaneTakes(node, ethMap, row, p)
    ensures (exists c :: InLane(listing, node, ethMap, row, c) && Checks(c, p)) <==> LaneChecks(node, ethMap, row, p)
    ensures (exists c :: InLane(listing, node, ethMap, row, c) && AnswersFor(c, row.table, p))
       <==> LaneAnswers(node, ethMap, row, p)
  {
    hide IsLaneCommand, InLane, Rules, Checks, AnswersFor, LaneTakes, LaneChecks, LaneAnswers, ValidNode, IsListing;
    forall c
      ensures IsLaneCommand(node, ethMap, row, p.dst.family, c) ==> InLane(listing, node, ethMap, row, c)
      ensures InLane(listing, node, ethMap, row, c) && (Rules(c, p) || Checks(c, p) || AnswersFor(c, row.table, p)) ==>
                IsLaneCommand(node, ethMap, row, p.dst.family, c)
    {
      ForFamily(listing, node, ethMap, row, p, row.table, c);
    }
    if LaneGroups(row, p.dst.family) == map[] {
      EmptyLaneMeaning(node, ethMap, row, p);
    } else {
      FullLaneTakes(node, ethMap, row, p);
      FullLaneAnswers(node, ethMap, row, p);
    }
  }

  // ----------------------------------------------------------- what is claimed for a key

  ghost predicate HasClaimBelow(
      listing: set<Cidr> -> seq<Cidr>, ethMap: EthMap, rows: seq<LaneRow>, k: Key, n: int)
  {
    exists r :: r in FirstPerKey(SharedAndCross(listing, ethMap, rows)) && KeyOf(r) == k && r.priority < n
  }

  lemma ClaimFirst(listing: set<Cidr> -> seq<Cidr>, ethMap: EthMap, rows: seq<LaneRow>, k: Key, n: int)
    ensures HasClaimBelow(listing, ethMap, rows, k, n)
       <==> (var first := FirstWith(SharedAndCross(listing, ethMap, rows), k);
             first.Some? && first.value.priority < n)
  {
    hide SharedAndCross, FirstPerKey;
    var candidates := SharedAndCross(listing, ethMap, rows);
    var first := FirstWith(candidates, k);
    if first.Some? {
      KeptIsFirst(candidates, first.value);
    }
    if r :| r in FirstPerKey(candidates) && KeyOf(r) == k && r.priority < n {
      KeptIsFirst(candidates, r);
    }
  }

  /** The first serving lane of the descending order has the greatest number of those that serve. */
  lemma FirstServing(ethMap: EthMap, rows: seq<LaneRow>, k: Key, n: int)
    ensures (var first := FirstSuch(SortDescending(rows), Serving(ethMap, k));
             && (first.Some? <==> exists row :: row in rows && Serves(ethMap, row, k))
             && (first.Some? ==>
                   (first.value.priority < n
                    <==> forall row | row in rows && Serves(ethMap, row, k) :: row.priority < n)))
  {
    hide FirstSuch, SortDescending, Serves;
    var i := FirstSuchIsBest(rows, Serving(ethMap, k));
    if row :| row in rows && Serves(ethMap, row, k) {
      var j :| 0 <= j < |rows| && rows[j] == row;
      assert Serving(ethMap, k)(rows[j]);
    }
  }

  lemma FirstPartnerIff(rows: seq<LaneRow>, us: LaneRow, k: Key)
    ensures FirstSuch(SortDescending(rows), Partner(us, k)).Some? <==> exists ds :: ds in rows && Partner(us, k)(ds)
  {
    hide FirstSuch, SortDescending, IsDownstream, Covers;
    var i := FirstSuchIsBest(rows, Partner(us, k));
    if ds :| ds in rows && Partner(us, k)(ds) {
      var j :| 0 <= j < |rows| && rows[j] == ds;
    }
  }

  /** On an ingress that is no lane's own interface only Phase 3 claims. */
  lemma ClaimElsewhere(listing: set<Cidr> -> seq<Cidr>, ethMap: EthMap, rows: seq<LaneRow>, k: Key)
    requires IsListing(listing) && forall row | row in rows :: row.eth != k.iif
    ensures FirstWith(SharedAndCross(listing, ethMap, rows), k)
         == match FirstSuch(SortDescending(rows), Serving(ethMap, k))
            case Some(best) => Some(RuleOf(best, k))
            case None => None
  {
    hide SharedCandidates, CrossCandidates, CrossAccesses, SortDescending, IsListing, Serves, FirstWith, IsDownstream;
    var sorted := SortDescending(rows);
    var accesses := SortedNames(CrossAccesses(sorted));
    var cross := CrossCandidates(listing, sorted, accesses, |accesses|);
    SortKeepsRows(rows);
    FirstCandidate(listing, ethMap, sorted, k);
    FirstWithAppend(SharedCandidates(listing, ethMap, sorted), cross, k);
    if FirstWith(cross, k).Some? {
      var r := FirstWith(cross, k).value;
      CrossFromLanes(listing, sorted, accesses, |accesses|, r);
    }
  }

  ghost predicate AllAlone(rows: seq<LaneRow>) {
    forall row | row in rows :: AloneOn(rows, row)
  }

  /** A key has a claim below `n` exactly when the lanes say so. */
  lemma ClaimBelowIff(listing: set<Cidr> -> seq<Cidr>, ethMap: EthMap, rows: seq<LaneRow>, k: Key, n: int)
    requires IsListing(listing) && AllAlone(rows)
    ensures HasClaimBelow(listing, ethMap, rows, k, n) <==> ClaimedBelow(ethMap, rows, k, n)
  {
    hide SharedAndCross, FirstSuch, SortDescending, IsListing, Serves, IsUpstream, HasClaimBelow, Partner;
    ClaimFirst(listing, ethMap, rows, k, n);
    FirstServing(ethMap, rows, k, n);
    if us :| us in rows && us.eth == k.iif {
      ClaimOnOwnInterface(listing, ethMap, rows, us, k);
      FirstPartnerIff(rows, us, k);
    } else {
      ClaimElsewhere(listing, ethMap, rows, k);
    }
  }

  // ------------------------------------------------------------------ a whole rendering

  /** A table of the rendering has a route for the packet exactly when some lane gives it an answer. */
  lemma HasRouteIff(
      listing: set<Cidr> -> seq<Cidr>, node: Node, ethMap: EthMap, selected: seq<SelectorRule>, rows: seq<LaneRow>,
      t: int, p: Probe)
    requires ValidNode(node) && IsListing(listing)
    ensures HasRoute(LaneRendering(listing, node, ethMap, selected, rows), t, p)
       <==> TableAnswers(node, ethMap, rows, t, p)
  {
    hide Phase2, InLane, LaneAnswers, SharedAndCross, FirstPerKey, ValidNode, IsListing, Within;
    var cmds := LaneRendering(listing, node, ethMap, selected, rows);
    if c :| c in cmds && AnswersFor(c, t, p) {
      assert c in Phase2(listing, node, ethMap, rows, |rows|);
      Phase2Members(listing, node, ethMap, rows, |rows|, c);
      var i :| 0 <= i < |rows| && InLane(listing, node, ethMap, rows[i], c);
      ForFamily(listing, node, ethMap, rows[i], p, t, c);
      LaneMeaning(listing, node, ethMap, rows[i], p);
      assert rows[i] in rows && LaneAnswers(node, ethMap, rows[i], p);
    }
    if row :| row in rows && row.table == t && LaneAnswers(node, ethMap, row, p) {
      LaneMeaning(listing, node, ethMap, row, p);
      var c :| InLane(listing, node, ethMap, row, c) && AnswersFor(c, row.table, p);
      InRendering(listing, node, ethMap, selected, rows, row, c);
    }
  }

  lemma InRendering(
      listing: set<Cidr> -> seq<Cidr>, node: Node, ethMap: EthMap, selected: seq<SelectorRule>, rows: seq<LaneRow>,
      row: LaneRow, c: Command)
    requires ValidNode(node) && IsListing(listing) && row in rows && InLane(listing, node, ethMap, row, c)
    ensures c in LaneRendering(listing, node, ethMap, selected, rows)
  {
    hide Phase2, InLane, SharedAndCross, FirstPerKey, ValidNode, IsListing;
    var i :| 0 <= i < |rows| && rows[i] == row;
    Phase2Members(listing, node, ethMap, rows, |rows|, c);
  }

  /** Some rule below `n` decides the packet. */
  ghost predicate DecidedBelow(cmds: seq<Command>, main: Ip -> bool, p: Probe, n: int) {
    exists c :: c in cmds && Decides(cmds, main, c, p) && PriorityOf(c) < n
  }

  /** The rules of the rendering below `n` that decide a packet are those of the four kinds. */
  lemma CapturingRule(
      listing: set<Cidr> -> seq<Cidr>, node: Node, ethMap: EthMap, selected: seq<SelectorRule>, rows: seq<LaneRow>,
      main: Ip -> bool, p: Probe, n: int, c: Command)
    requires ValidNode(node) && IsListing(listing) && AllAlone(rows)
    ensures (var cmds := LaneRendering(listing, node, ethMap, selected, rows);
             c in cmds && Decides(cmds, main, c, p) && PriorityOf(c) < n) ==>
              || (c.Selected? && c.selector in selected && TableAnswers(node, ethMap, rows, c.selector.table, p))
              || ByMainCheck(node, ethMap, rows, main, p, n) || ByLane(node, ethMap, rows, p, n)
              || ByClaim(ethMap, rows, p, n)
  {
    hide Phase2, InLane, LaneTakes, LaneChecks, TableAnswers, SharedAndCross, FirstPerKey, ValidNode, IsListing;
    hide Within, HasRoute, ClaimedBelow, AllAlone, AtLanePriority;
    var rules := FirstPerKey(SharedAndCross(listing, ethMap, rows));
    DecidingTable(listing, node, ethMap, selected, rows, main, c, p);
    if RuleOfCommand(c).Some? && Matches(c, p) && PriorityOf(c) < n {
      if c in Phase2(listing, node, ethMap, rows, |rows|) {
        Phase2Members(listing, node, ethMap, rows, |rows|, c);
        var i :| 0 <= i < |rows| && InLane(listing, node, ethMap, rows[i], c);
        CapturingLane(listing, node, ethMap, rows[i], p, c);
        assert rows[i] in rows;
      } else if c.ToRule? && c in ToRules(rules) {
        ClaimBelowIff(listing, ethMap, rows, KeyOf(c.rule), n);
      }
    }
  }

  lemma DecidingTable(
      listing: set<Cidr> -> seq<Cidr>, node: Node, ethMap: EthMap, selected: seq<SelectorRule>, rows: seq<LaneRow>,
      main: Ip -> bool, c: Command, p: Probe)
    requires ValidNode(node) && IsListing(listing)
    ensures Decides(LaneRendering(listing, node, ethMap, selected, rows), main, c, p) <==>
              && RuleOfCommand(c).Some? && Matches(c, p)
              && match RuleOfCommand(c).value.1
                 case Main => main(p.dst)
                 case Table(t) => TableAnswers(node, ethMap, rows, t, p)
  {
    hide HasRoute, TableAnswers, LaneRendering, Matches, ValidNode, IsListing;
    if RuleOfCommand(c).Some? && RuleOfCommand(c).value.1.Table? {
      HasRouteIff(listing, node, ethMap, selected, rows, RuleOfCommand(c).value.1.table, p);
    }
  }

  /** A rule that a lane renders and that matches: the lane takes the packet, or checks the main table for it. */
  lemma CapturingLane(
      listing: set<Cidr> -> seq<Cidr>, node: Node, ethMap: EthMap, row: LaneRow, p: Probe, c: Command)
    requires ValidNode(node) && IsListing(listing) && InLane(listing, node, ethMap, row, c)
    requires RuleOfCommand(c).Some? && Matches(c, p)
    ensures if c.MainSuppressed? then LaneChecks(node, ethMap, row, p) && row.mainSuppress == Some(PriorityOf(c))
            else LaneTakes(node, ethMap, row, p) && RuleOfCommand(c) == Some((row.priority, Table(row.table)))
  {
    hide InLane, LaneTakes, LaneChecks, ValidNode, IsListing, Matches;
    LaneMeaning(listing, node, ethMap, row, p);
    LaneCommand(listing, node, ethMap, row, c, V4);
    assert Rules(c, p) || Checks(c, p);
  }

  /** Whatever captures by a main-table check, a lane or a claim is a rule of the rendering that decides. */
  lemma CaptureHappens(
      listing: set<Cidr> -> seq<Cidr>, node: Node, ethMap: EthMap, selected: seq<SelectorRule>, rows: seq<LaneRow>,
      main: Ip -> bool, p: Probe, n: int)
    requires ValidNode(node) && IsListing(listing) && AllAlone(rows)
    requires || ByMainCheck(node, ethMap, rows, main, p, n) || ByLane(node, ethMap, rows, p, n)
             || ByClaim(ethMap, rows, p, n)
    ensures DecidedBelow(LaneRendering(listing, node, ethMap, selected, rows), main, p, n)
  {
    hide LaneRendering, InLane, LaneTakes, LaneChecks, TableAnswers, SharedAndCross, FirstPerKey, ValidNode, IsListing;
    hide Within, ClaimedBelow, AllAlone, Decides;
    var cmds := LaneRendering(listing, node, ethMap, selected, rows);
    if ByMainCheck(node, ethMap, rows, main, p, n) {
      var row :| row in rows && row.mainSuppress.Some? && row.mainSuppress.value < n
                 && LaneChecks(node, ethMap, row, p);
      LaneMeaning(listing, node, ethMap, row, p);
      var c :| InLane(listing, node, ethMap, row, c) && Checks(c, p);
      CapturingLane(listing, node, ethMap, row, p, c);
      InRendering(listing, node, ethMap, selected, rows, row, c);
      DecidingTable(listing, node, ethMap, selected, rows, main, c, p);
    } else if ByLane(node, ethMap, rows, p, n) {
      var row :| row in rows && row.priority < n && LaneTakes(node, ethMap, row, p)
                 && TableAnswers(node, ethMap, rows, row.table, p);
      LaneMeaning(listing, node, ethMap, row, p);
      var c :| InLane(listing, node, ethMap, row, c) && Rules(c, p);
      CapturingLane(listing, node, ethMap, row, p, c);
      InRendering(listing, node, ethMap, selected, rows, row, c);
      DecidingTable(listing, node, ethMap, selected, rows, main, c, p);
    } else {
      var k: Key :| k.family == p.dst.family && k.iif == p.iif && Within(k.dst, p.dst)
                    && ClaimedBelow(ethMap, rows, k, n);
      ClaimBelowIff(listing, ethMap, rows, k, n);
      var r :| r in FirstPerKey(SharedAndCross(listing, ethMap, rows)) && KeyOf(r) == k && r.priority < n;
      ClaimDecides(listing, node, ethMap, selected, rows, main, p, r);
    }
  }

  /** A rendered selector below `n` that matches, with a table that answers, comes from an accepted one. */
  lemma SelectorsCapture(
      node: Node, ethMap: EthMap, raw: seq<RawSelector>, selectors: seq<Selector>, selected: seq<SelectorRule>,
      rows: seq<LaneRow>, p: Probe, n: int)
    requires ValidNode(node) && Accepted(node, ethMap, raw, selectors) && RendersSelectors(selectors, selected)
    ensures BySelector(node, ethMap, raw, rows, p, n)
       <==> exists x :: x in selected && x.priority < n && Matches(Selected(x), p)
                        && TableAnswers(node, ethMap, rows, x.table, p)
  {
    hide ValidateSelector, TableAnswers, Within, ValidNode;
    if x :| x in selected && x.priority < n && Matches(Selected(x), p) && TableAnswers(node, ethMap, rows, x.table, p) {
      var v :| v in selectors && x == RuleOfSelector(v);
      var i :| 0 <= i < |selectors| && selectors[i] == v;
      assert raw[i] in raw && ValidateSelector(node, ethMap, raw[i]) == Ok(v);
    }
    if s, v :| s in raw && ValidateSelector(node, ethMap, s) == Ok(v) && v.priority < n
               && Matches(Selected(RuleOfSelector(v)), p) && TableAnswers(node, ethMap, rows, v.tableId, p)
    {
      var i :| 0 <= i < |raw| && raw[i] == s;
      assert selectors[i] == v && v in selectors && RuleOfSelector(v) in selected;
    }
  }

  /** Some rule below `n` decides the packet if and only if the packet is captured below `n`. */
  lemma DecidedBelowIff(
      listing: set<Cidr> -> seq<Cidr>, node: Node, ethMap: EthMap, raw: seq<RawSelector>, selectors: seq<Selector>,
      selected: seq<SelectorRule>, rows: seq<LaneRow>, main: Ip -> bool, p: Probe, n: int)
    requires ValidNode(node) && IsListing(listing) && AllAlone(rows)
    requires Accepted(node, ethMap, raw, selectors) && RendersSelectors(selectors, selected)
    ensures DecidedBelow(LaneRendering(listing, node, ethMap, selected, rows), main, p, n)
       <==> Captured(node, ethMap, raw, rows, main, p, n)
  {
    hide Accepted, RendersSelectors, ByMainCheck, ByLane, ByClaim, BySelector, TableAnswers, ValidNode, IsListing;
    hide AllAlone, LaneRendering, Matches;
    var cmds := LaneRendering(listing, node, ethMap, selected, rows);
    SelectorsCapture(node, ethMap, raw, selectors, selected, rows, p, n);
    if c :| c in cmds && Decides(cmds, main, c, p) && PriorityOf(c) < n {
      CapturingRule(listing, node, ethMap, selected, rows, main, p, n, c);
    }
    if x :| x in selected && x.priority < n && Matches(Selected(x), p) && TableAnswers(node, ethMap, rows, x.table, p) {
      var c := Selected(x);
      SelectedRenders(listing, node, ethMap, selected, rows, x);
      DecidingTable(listing, node, ethMap, selected, rows, main, c, p);
      assert Decides(cmds, main, c, p) && PriorityOf(c) == x.priority;
    } else if Captured(node, ethMap, raw, rows, main, p, n) {
      CaptureHappens(listing, node, ethMap, selected, rows, main, p, n);
    }
  }

  lemma SelectedRenders(
      listing: set<Cidr> -> seq<Cidr>, node: Node, ethMap: EthMap, selected: seq<SelectorRule>, rows: seq<LaneRow>,
      x: SelectorRule)
    requires ValidNode(node) && IsListing(listing) && x in selected
    ensures Selected(x) in LaneRendering(listing, node, ethMap, selected, rows)
  {
    hide Phase2, SharedAndCross, FirstPerKey, ToRules, ValidNode, IsListing;
    var i :| 0 <= i < |selected| && selected[i] == x;
    assert Selecteds(selected)[i] == Selected(x);
  }

  /**
   * For any packet, claimed or not: the rule that decides it has a number below `n` if
   * and only if the node and its lanes capture the packet below `n`.
   */
  lemma PriorityIff(
      listing: set<Cidr> -> seq<Cidr>, node: Node, ethMap: EthMap, raw: seq<RawSelector>, cmds: seq<Command>,
      main: Ip -> bool, p: Probe, k: nat, n: int)
    requires ValidNode(node) && IsListing(listing) && Injective(ethMap)
    ensures IsRendered(listing, node, ethMap, raw, cmds) && DecidedBy(cmds, main, p, |cmds|, k) ==>
              (PriorityOf(cmds[k]) < n <==> Captured(node, ethMap, raw, LaneRows(node, ethMap).value, main, p, n))
  {
    hide Matches, HasRoute, ValidNode, IsListing, LaneRendering, Captured, Accepted, RendersSelectors, LaneRows;
    if IsRendered(listing, node, ethMap, raw, cmds) && DecidedBy(cmds, main, p, |cmds|, k) {
      var rows := LaneRows(node, ethMap).value;
      RowsAlone(node, ethMap);
      var selectors, selected :|
        && Accepted(node, ethMap, raw, selectors) && RendersSelectors(selectors, selected)
        && cmds == LaneRendering(listing, node, ethMap, selected, rows);
      DecidedBelowIff(listing, node, ethMap, raw, selectors, selected, rows, main, p, n);
      LeastDecides(cmds, main, p, k);
    }
  }

  /**
   * The packet of a claim is decided at the claim's own priority if and only if nothing
   * below it captures the packet: no accepted selector, no main-table check, no lane and
   * no other claim.
   */
  lemma NotCapturedIff(
      listing: set<Cidr> -> seq<Cidr>, node: Node, ethMap: EthMap, raw: seq<RawSelector>, cmds: seq<Command>,
      main: Ip -> bool, p: Probe, r: DestRule, k: nat)
    requires ValidNode(node) && IsListing(listing) && Injective(ethMap) && Matches(ToRule(r), p)
    ensures IsRendered(listing, node, ethMap, raw, cmds) && DecidedBy(cmds, main, p, |cmds|, k) ==>
              (var rows := LaneRows(node, ethMap).value;
               r in FirstPerKey(SharedAndCross(listing, ethMap, rows)) ==>
                 && PriorityOf(cmds[k]) <= r.priority
                 && (PriorityOf(cmds[k]) == r.priority <==> !Captured(node, ethMap, raw, rows, main, p, r.priority)))
  {
    hide SharedAndCross, FirstPerKey, Matches, HasRoute, ValidNode, IsListing, LaneRendering, Captured;
    hide LaneRows;
    if IsRendered(listing, node, ethMap, raw, cmds) && DecidedBy(cmds, main, p, |cmds|, k) {
      var rows := LaneRows(node, ethMap).value;
      PriorityIff(listing, node, ethMap, raw, cmds, main, p, k, r.priority);
      if r in FirstPerKey(SharedAndCross(listing, ethMap, rows)) {
        var selectors, selected :|
          && Accepted(node, ethMap, raw, selectors) && RendersSelectors(selectors, selected)
          && cmds == LaneRendering(listing, node, ethMap, selected, rows);
        hide Accepted, RendersSelectors;
        ClaimDecides(listing, node, ethMap, selected, rows, main, p, r);
        var i :| 0 <= i < |cmds| && cmds[i] == ToRule(r);
      }
    }
  }

  lemma RowsAlone(node: Node, ethMap: EthMap)
    requires ValidNode(node) && Injective(ethMap)
    ensures LaneRows(node, ethMap).Ok? ==> AllAlone(LaneRows(node, ethMap).value)
  {
    hide LaneRows, ValidNode;
    if LaneRows(node, ethMap).Ok? {
      var rows := LaneRows(node, ethMap).value;
      RowsOfNode(node, ethMap);
      forall row, other | row in rows && other in rows && other.eth == row.eth
        ensures other == row
      {
        assert other.ifname == row.ifname;
      }
    }
  }

  /** The rule that decides has the least number of all that decide. */
  lemma LeastDecides(cmds: seq<Command>, main: Ip -> bool, p: Probe, k: nat)
    requires DecidedBy(cmds, main, p, |cmds|, k)
    ensures forall n: int :: DecidedBelow(cmds, main, p, n) <==> PriorityOf(cmds[k]) < n
  {
    hide Matches, HasRoute;
    forall n: int
      ensures DecidedBelow(cmds, main, p, n) <==> PriorityOf(cmds[k]) < n
    {
      if c :| c in cmds && Decides(cmds, main, c, p) && PriorityOf(c) < n {
        var j :| 0 <= j < |cmds| && cmds[j] == c;
      }
      assert cmds[k] in cmds;
    }
  }

  // ------------------------------------------------------------ who sends to whom

  /**
   * A claim that no Phase 3 lane serves comes from Phase 4: it is on the interface of an
   * uplink or access lane and at that lane's number, and leads to the table of an access
   * or access-edge lane of the same access that has the destination. No edge lane sends,
   * and the table of a lane that is only an uplink is no target.
   */
  lemma CrossRuleKinds(listing: set<Cidr> -> seq<Cidr>, ethMap: EthMap, rows: seq<LaneRow>, r: DestRule)
    requires IsListing(listing) && AllAlone(rows) && forall row | row in rows :: !Serves(ethMap, row, KeyOf(r))
    ensures r in FirstPerKey(SharedAndCross(listing, ethMap, rows)) ==>
              && (exists us, ds ::
                    && us in rows && us.eth == r.iif && SendsOn(us) && us.priority == r.priority
                    && ds in rows && TakesFrom(us, KeyOf(r))(ds) && ds.table == r.table)
              && (forall row | row in rows && row.eth == r.iif :: row.kind in {AccessUplink, Access})
              && (exists ds :: ds in rows && ds.table == r.table && ds.kind in {Access, AccessEdge})
  {
    hide SharedAndCross, FirstPerKey, FirstWith, SortDescending, FirstSuch, IsListing, Serves;
    var k := KeyOf(r);
    KeptIsFirst(SharedAndCross(listing, ethMap, rows), r);
    var none := FirstSuchIsBest(rows, Serving(ethMap, k));
    if us :| us in rows && us.eth == k.iif {
      ClaimOnOwnInterface(listing, ethMap, rows, us, k);
      var w := FirstSuchIsBest(rows, Partner(us, k));
      PartnerFields(us, k, us);
      if FirstSuch(SortDescending(rows), Partner(us, k)).Some? {
        PartnerFields(us, k, rows[w]);
      }
    } else {
      ClaimElsewhere(listing, ethMap, rows, k);
    }
  }

  /** The resolver's address belongs to the first interface in name order whose network holds it. */
  lemma {:induction false} SourceIsFirst(node: Node, names: seq<Name>, a: Ip, n: Name)
    requires ValidNode(node) && StrictlySorted(NameLe, names)
    ensures SourceOfAddress(node, names, a.family, a) == Some(n)
       <==> n in names && HasAddress(node, n, a) && forall m | m in names && HasAddress(node, m, a) :: NameLe(n, m)
    ensures SourceOfAddress(node, names, a.family, a) == Some(n) ==>
              SourceAddr(node, names, a.family, a) == Addr(node.interfaces[n], a.family).value
  {
    hide ValidNode, InNetwork;
    if names != [] {
      SourceIsFirst(node, names[1..], a, n);
      LeastIsFirst(names);
      hide StrictlySorted, NameLe;
      assert forall x :: x in names <==> x == names[0] || x in names[1..];
    }
  }
}
