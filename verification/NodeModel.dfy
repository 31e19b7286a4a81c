/** The parts of a node, interface and route that the Linux renderer reads. */
module NodeModel {
  import opened Arithmetic
  import opened Common
  import opened Sorting
  import opened Addressing

  datatype LaneKind = AccessUplink | Access | AccessEdge | OtherLane

  /** A lane after its backing reference and uplink lists have been merged. */
  datatype Lane = Lane(access: Option<Name>, uplink: Option<Name>, uplinks: set<Name>, kind: LaneKind)

  const NO_LANE := Lane(None, None, {}, OtherLane)

  datatype Kind = Tenant | Overlay | Wan | OtherKind

  datatype Proto = ProtoConnected | ProtoUplink | OtherProto

  /** A route's intent; a missing field is the empty string. */
  datatype Intent = Intent(
    kind: string, direction: string, relationId: string, policyStateOwner: string, accessNode: bool)

  datatype Route = Route(
    dst: Option<Cidr>, via4: Option<Ip>, via6: Option<Ip>, proto: Proto, policyOnly: bool,
    lane: Option<Lane>, relationId: string, returnBehavior: string, trafficType: string, intent: Intent)

  datatype AllocationSource = ControlPlaneModel | ProviderContract | UnknownSource

  datatype Allocation = Allocation(
    source: AllocationSource, tableId: int, tableRulePriority: Option<int>, priority: int,
    mainSuppress: Option<int>)

  datatype Iface = Iface(
    kind: Kind, declaredRuntime: Option<Name>, addr4: Option<Cidr>, addr6: Option<Cidr>, ll6: Option<Cidr>,
    lane: Option<Lane>, routes4: seq<Route>, routes6: seq<Route>, allocation: Option<Allocation>)

  /** A forwarding rule; its interface names are logical or runtime ones. */
  datatype ForwardRule = ForwardRule(accept: bool, fromName: Name, toName: Name)

  datatype Node = Node(
    interfaces: map<Name, Iface>, loopback4: Option<Cidr>, loopback6: Option<Cidr>,
    forwarding: seq<ForwardRule>, dnsOutgoing: seq<Ip>)

  function Addr(iface: Iface, f: Family): Option<Cidr> {
    if f == V4 then iface.addr4 else iface.addr6
  }

  function Routes(iface: Iface, f: Family): seq<Route> {
    if f == V4 then iface.routes4 else iface.routes6
  }

  function Via(route: Route, f: Family): Option<Ip> {
    if f == V4 then route.via4 else route.via6
  }

  predicate ValidIfPresent(c: Option<Cidr>) {
    c.Some? ==> Valid(c.value)
  }

  /** Every address of the node is one that the address parser accepts. */
  ghost predicate ValidNode(node: Node) {
    && ValidIfPresent(node.loopback4) && ValidIfPresent(node.loopback6)
    && forall n | n in node.interfaces :: ValidIface(node.interfaces[n])
  }

  predicate ValidIface(iface: Iface) {
    ValidIfPresent(iface.addr4) && ValidIfPresent(iface.addr6) && ValidIfPresent(iface.ll6)
  }

  function DefaultOf(f: Family): Cidr {
    Cidr(Ip(f, 0), 0)
  }

  predicate IsDefault(dst: Cidr) {
    dst == DefaultOf(V4) || dst == DefaultOf(V6)
  }

  /** `listing` lists the keys of a table; the source sorts their text. */
  ghost predicate IsListing(listing: set<Cidr> -> seq<Cidr>) {
    forall s, d :: d in listing(s) <==> d in s
  }

  /** `_normalize_prefix`: host bits cleared, an over-long IPv4 length cut to /32, anything else kept. */
  function NormalizePrefix(dst: Cidr): Cidr {
    if Valid(dst) then Network(dst)
    else if dst.ip.family == V4 && dst.len > 32 then dst.(len := 32)
    else dst
  }

  lemma NormalizePrefixIdempotent(dst: Cidr)
    ensures NormalizePrefix(NormalizePrefix(dst)) == NormalizePrefix(dst)
  {
    if Valid(dst) {
      BlockSize(dst);
      SameBlock(dst, NetworkAddress(dst));
    } else if dst.ip.family == V4 && dst.len > 32 {
      var host := dst.(len := 32);
      if Valid(host) {
        assert Pow2(0) == 1 && host.ip.value % 1 == 0;
      }
    }
  }
}
