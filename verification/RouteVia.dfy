/**
 * The effective next hop of a route (clabgen/s88/CM/linux_route_via.py) and the
 * node's own addresses and prefixes (linux_route_state.py).
 */
module RouteVia {
  import opened Common
  import opened Sorting
  import opened Addressing
  import opened NodeModel

  /** Another interface, facing the WAN, would use this very address as its peer. */
  predicate ConflictsWithWanPeer(node: Node, ifname: Name, addr: Cidr)
    requires ValidNode(node)
  {
    exists other | other in node.interfaces ::
      && other != ifname && node.interfaces[other].kind == Wan
      && (PeerInSubnet(node.interfaces[other].addr4) == Some(addr.ip)
          || PeerInSubnet(node.interfaces[other].addr6) == Some(addr.ip))
  }

  function IfaceIps(node: Node, ifname: Name, f: Family): set<Ip>
    requires ValidNode(node) && ifname in node.interfaces
  {
    var iface := node.interfaces[ifname];
    var own := if Addr(iface, f).Some? && !ConflictsWithWanPeer(node, ifname, Addr(iface, f).value)
               then {NormalizeL3Addr(Addr(iface, f).value, iface.kind == Tenant).ip} else {};
    var linkLocal := if f == V6 && iface.ll6.Some? && !ConflictsWithWanPeer(node, ifname, iface.ll6.value)
                     then {iface.ll6.value.ip} else {};
    own + linkLocal
  }

  function LocalIps(node: Node, f: Family): set<Ip>
    requires ValidNode(node)
  {
    var loopback := if f == V4 then node.loopback4 else node.loopback6;
    (set n, a | n in node.interfaces && a in IfaceIps(node, n, f) :: a)
    + (if loopback.Some? then {loopback.value.ip} else {})
  }

  function ConnectedPrefixes(node: Node, f: Family): set<Cidr>
    requires ValidNode(node)
  {
    var loopback := if f == V4 then node.loopback4 else node.loopback6;
    (set n | n in node.interfaces && Addr(node.interfaces[n], f).Some?
             && !ConflictsWithWanPeer(node, n, Addr(node.interfaces[n], f).value)
           :: Network(Addr(node.interfaces[n], f).value))
    + (if loopback.Some? then {Network(loopback.value)} else {})
  }

  predicate SameSubnet(gateway: Option<Ip>, addr: Option<Cidr>)
    requires ValidIfPresent(addr)
  {
    gateway.Some? && addr.Some? && InNetwork(gateway.value, addr.value)
  }

  predicate In(via: Option<Ip>, local: set<Ip>) {
    via.Some? && via.value in local
  }

  function EffectiveVia(node: Node, iface: Iface, route: Route, f: Family): Option<Ip>
    requires ValidNode(node) && ValidIface(iface)
  {
    var local := LocalIps(node, f);
    var declared := if In(Via(route, f), local) then None else Via(route, f);
    var chosen := if declared.None? && route.proto == ProtoUplink then PeerInSubnet(Addr(iface, f)) else declared;
    var retried := if In(chosen, local) then PeerInSubnet(Addr(iface, f)) else chosen;
    if In(retried, local) then None
    else if iface.kind == Overlay then retried
    else if !SameSubnet(retried, Addr(iface, f)) then None
    else retried
  }

  /** The next hop a route asks for: its own one unless local, else the uplink peer. */
  function Wanted(local: set<Ip>, iface: Iface, route: Route, f: Family): Option<Ip>
    requires ValidIface(iface)
  {
    if Via(route, f).Some? && Via(route, f).value !in local then Via(route, f)
    else if route.proto == ProtoUplink then PeerInSubnet(Addr(iface, f))
    else None
  }

  /**
   * A next hop survives exactly when the route wants it, it is not an address of the
   * node itself, and, off an overlay, it is on the interface's own link.
   */
  lemma EffectiveViaIsOnLink(node: Node, iface: Iface, route: Route, f: Family, hop: Ip)
    requires ValidNode(node) && ValidIface(iface)
    ensures EffectiveVia(node, iface, route, f) == Some(hop) <==>
              && Wanted(LocalIps(node, f), iface, route, f) == Some(hop)
              && hop !in LocalIps(node, f)
              && (iface.kind != Overlay ==> Addr(iface, f).Some? && InNetwork(hop, Addr(iface, f).value))
  {
    hide LocalIps;
  }

  /** The next hop the route wants on the interface, unless it is the node's own or off the interface's link. */
  ghost predicate IsNextHop(node: Node, iface: Iface, r: Route, f: Family, hop: Ip)
    requires ValidNode(node) && ValidIface(iface)
  {
    && Wanted(LocalIps(node, f), iface, r, f) == Some(hop) && hop !in LocalIps(node, f)
    && (iface.kind != Overlay ==> Addr(iface, f).Some? && InNetwork(hop, Addr(iface, f).value))
  }

  lemma NextHopIff(node: Node, iface: Iface, r: Route, f: Family, hop: Ip)
    requires ValidNode(node) && ValidIface(iface)
    ensures EffectiveVia(node, iface, r, f) == Some(hop) <==> IsNextHop(node, iface, r, f, hop)
  {
    hide LocalIps, EffectiveVia, Wanted, InNetwork;
    EffectiveViaIsOnLink(node, iface, r, f, hop);
  }

  /** An uplink route without a usable next hop of its own always gets an on-link one, unless the peer is local. */
  lemma UplinkAlwaysHasPeer(node: Node, iface: Iface, route: Route, f: Family)
    requires ValidNode(node) && ValidIface(iface) && route.proto == ProtoUplink
    requires Via(route, f).None? || Via(route, f).value in LocalIps(node, f)
    requires Addr(iface, f).Some? && NumAddresses(Addr(iface, f).value) >= 2
    ensures PeerInSubnet(Addr(iface, f)).Some?
    ensures EffectiveVia(node, iface, route, f)
         == if PeerInSubnet(Addr(iface, f)).value in LocalIps(node, f) then None else PeerInSubnet(Addr(iface, f))
  {
    PeerIsOnLink(Addr(iface, f).value);
  }

  // ------------------------------------------------ the node's own addresses, in fields

  /** Some other interface faces the WAN and its link's peer is the address. */
  ghost predicate IsWanPeer(node: Node, n: Name, a: Ip)
    requires ValidNode(node)
  {
    exists other, c: Cidr ::
      && other in node.interfaces && other != n && node.interfaces[other].kind == Wan
      && (node.interfaces[other].addr4 == Some(c) || node.interfaces[other].addr6 == Some(c))
      && PeerInSubnet(Some(c)) == Some(a)
  }

  function LoopbackOf(node: Node, f: Family): Option<Cidr> {
    match f
    case V4 => node.loopback4
    case V6 => node.loopback6
  }

  function AddressAt(iface: Iface, f: Family): Option<Cidr> {
    match f
    case V4 => iface.addr4
    case V6 => iface.addr6
  }

  lemma WanPeerIff(node: Node, n: Name, c: Cidr)
    requires ValidNode(node)
    ensures ConflictsWithWanPeer(node, n, c) <==> IsWanPeer(node, n, c.ip)
  {
    hide PeerInSubnet;
    if other :|
      && other in node.interfaces && other != n && node.interfaces[other].kind == Wan
      && (PeerInSubnet(node.interfaces[other].addr4) == Some(c.ip)
          || PeerInSubnet(node.interfaces[other].addr6) == Some(c.ip))
    {
      NoAddressNoPeer();
      var own := if PeerInSubnet(node.interfaces[other].addr4) == Some(c.ip) then node.interfaces[other].addr4
                 else node.interfaces[other].addr6;
      assert own == Some(own.value);
    }
  }

  lemma NoAddressNoPeer()
    ensures PeerInSubnet(None) == None
  {
  }

  /** Interface `n` is configured with `c` and uses the address `a`. */
  ghost predicate Uses(node: Node, f: Family, n: Name, c: Cidr, a: Ip)
    requires ValidNode(node)
  {
    && n in node.interfaces && AddressAt(node.interfaces[n], f) == Some(c) && !IsWanPeer(node, n, c.ip)
    && a == (if node.interfaces[n].kind == Tenant && c.len + 2 <= Width(c.ip.family) && c.ip.value == NetworkAddress(c)
             then Ip(c.ip.family, c.ip.value + 1) else c.ip)
  }

  ghost predicate UsesLinkLocal(node: Node, f: Family, n: Name, a: Ip)
    requires ValidNode(node) && n in node.interfaces
  {
    f == V6 && exists c :: node.interfaces[n].ll6 == Some(c) && !IsWanPeer(node, n, c.ip) && a == c.ip
  }

  /**
   * The node's own addresses of a family: its loopback; the address of an interface that no
   * WAN link takes for its peer, moved off the network address on a tenant's block of more
   * than two; and, for IPv6, such a link-local address.
   */
  lemma LocalIpsIff(node: Node, f: Family, a: Ip)
    requires ValidNode(node)
    ensures a in LocalIps(node, f) <==>
              || (LoopbackOf(node, f).Some? && a == LoopbackOf(node, f).value.ip)
              || (exists n, c :: Uses(node, f, n, c, a))
              || (exists n :: n in node.interfaces && UsesLinkLocal(node, f, n, a))
  {
    hide IfaceIps, IsWanPeer, Uses;
    forall n | n in node.interfaces
      ensures a in IfaceIps(node, n, f) <==> (exists c :: Uses(node, f, n, c, a)) || UsesLinkLocal(node, f, n, a)
    {
      IfaceIpsIff(node, n, f, a);
    }
    UsersAreInterfaces(node, f, a);
  }

  lemma UsersAreInterfaces(node: Node, f: Family, a: Ip)
    requires ValidNode(node)
    ensures forall n, c | Uses(node, f, n, c, a) :: n in node.interfaces
  {
  }

  lemma IfaceIpsIff(node: Node, n: Name, f: Family, a: Ip)
    requires ValidNode(node) && n in node.interfaces
    ensures a in IfaceIps(node, n, f) <==> (exists c :: Uses(node, f, n, c, a)) || UsesLinkLocal(node, f, n, a)
  {
    hide ConflictsWithWanPeer, IsWanPeer, NormalizeL3Addr, NetworkAddress;
    var iface := node.interfaces[n];
    if Addr(iface, f).Some? {
      var c := Addr(iface, f).value;
      WanPeerIff(node, n, c);
      NormalizeL3AddrIs(c, iface.kind == Tenant);
      assert AddressAt(iface, f) == Some(c);
      assert Uses(node, f, n, c, a) <==>
          !ConflictsWithWanPeer(node, n, c) && a == NormalizeL3Addr(c, iface.kind == Tenant).ip;
    }
    if iface.ll6.Some? {
      WanPeerIff(node, n, iface.ll6.value);
    }
  }

  /** The directly connected prefixes: the networks of the loopback and of such interface addresses. */
  lemma ConnectedPrefixesIff(node: Node, f: Family, d: Cidr)
    requires ValidNode(node)
    ensures d in ConnectedPrefixes(node, f) <==>
              || (LoopbackOf(node, f).Some? && d == Network(LoopbackOf(node, f).value))
              || (exists n, c: Cidr ::
                    && n in node.interfaces && AddressAt(node.interfaces[n], f) == Some(c) && !IsWanPeer(node, n, c.ip)
                    && d == Network(c))
  {
    hide ConflictsWithWanPeer, IsWanPeer, Network;
    forall n, c: Cidr
      ensures ConflictsWithWanPeer(node, n, c) <==> IsWanPeer(node, n, c.ip)
    {
      WanPeerIff(node, n, c);
    }
  }
}
