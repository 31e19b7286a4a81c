/**
 * Interface addresses and their peers: clabgen/s88/CM/linux_addressing.py.  An
 * address is a number below 2^width, and "address/length" is a `Cidr`, which may
 * carry host bits.
 */
module Addressing {
  import opened Arithmetic
  import opened Common
  import opened Sorting

  datatype Family = V4 | V6

  datatype Ip = Ip(family: Family, value: nat)

  /** An interface address, or the text of a prefix before its host bits are cleared. */
  datatype Cidr = Cidr(ip: Ip, len: nat)

  function Width(f: Family): nat {
    if f == V4 then 32 else 128
  }

  predicate Valid(c: Cidr) {
    c.len <= Width(c.ip.family) && c.ip.value < Pow2(Width(c.ip.family))
  }

  function NumAddresses(c: Cidr): nat
    requires Valid(c)
  {
    Pow2(Width(c.ip.family) - c.len)
  }

  function NetworkAddress(c: Cidr): nat
    requires Valid(c)
  {
    RemainderAtMost(c.ip.value, NumAddresses(c));
    c.ip.value - c.ip.value % NumAddresses(c)
  }

  function Broadcast(c: Cidr): nat
    requires Valid(c)
  {
    NetworkAddress(c) + NumAddresses(c) - 1
  }

  function Network(c: Cidr): Cidr
    requires Valid(c)
  {
    c.(ip := c.ip.(value := NetworkAddress(c)))
  }

  predicate InNetwork(a: Ip, c: Cidr)
    requires Valid(c)
  {
    a.family == c.ip.family && NetworkAddress(c) <= a.value <= Broadcast(c)
  }

  /** Every address of a block has the block's network address, and the block ends inside the family. */
  lemma SameBlock(c: Cidr, v: nat)
    requires Valid(c) && NetworkAddress(c) <= v <= Broadcast(c)
    ensures v < Pow2(Width(c.ip.family))
    ensures NetworkAddress(c.(ip := c.ip.(value := v))) == NetworkAddress(c)
    ensures v % NumAddresses(c) == v - NetworkAddress(c)
  {
    var s, n := NumAddresses(c), Pow2(c.len);
    var q := c.ip.value / s;
    assert c.ip.value == q * s + c.ip.value % s;
    Division(v, q, s, v - q * s);
    Pow2Sum(Width(c.ip.family) - c.len, c.len);
    assert s * n == n * s;
    BlockFits(q, s, n);
  }

  lemma BlockSize(c: Cidr)
    requires Valid(c)
    ensures NumAddresses(c) == 1 <==> c.len == Width(c.ip.family)
    ensures NumAddresses(c) == 2 <==> c.len == Width(c.ip.family) - 1
    ensures NumAddresses(c) >= 4 <==> c.len <= Width(c.ip.family) - 2
    ensures NetworkAddress(c) <= c.ip.value <= Broadcast(c)
  {
    var k := Width(c.ip.family) - c.len;
    assert k >= 1 ==> Pow2(k) == 2 * Pow2(k - 1);
    assert k >= 2 ==> Pow2(k) == 4 * Pow2(k - 2);
  }

  // ------------------------------------------------------------- tenant addresses

  predicate IsNetworkAddress(c: Cidr)
    requires Valid(c)
  {
    c.ip.value == NetworkAddress(c)
  }

  /** The first host of the prefix, except on a point-to-point or single-address prefix. */
  function FirstUsableHost(c: Cidr): Cidr
    requires Valid(c)
  {
    if c.len >= Width(c.ip.family) - 1 then c
    else if InNetwork(c.ip.(value := NetworkAddress(c) + 1), c) then
      c.(ip := c.ip.(value := NetworkAddress(c) + 1))
    else c
  }

  function NormalizeL3Addr(c: Cidr, tenant: bool): Cidr
    requires Valid(c)
  {
    if tenant && IsNetworkAddress(c) then FirstUsableHost(c) else c
  }

  /**
   * Normalising a tenant address keeps its prefix and is idempotent, and only on a
   * prefix of one or two addresses can the network address remain in use.
   */
  lemma NormalizeL3AddrLaws(c: Cidr, tenant: bool)
    requires Valid(c)
    ensures Valid(NormalizeL3Addr(c, tenant))
    ensures Network(NormalizeL3Addr(c, tenant)) == Network(c)
    ensures NormalizeL3Addr(NormalizeL3Addr(c, tenant), tenant) == NormalizeL3Addr(c, tenant)
    ensures tenant && IsNetworkAddress(NormalizeL3Addr(c, tenant)) ==> NumAddresses(c) <= 2
  {
    BlockSize(c);
    if tenant && IsNetworkAddress(c) && c.len < Width(c.ip.family) - 1 {
      SameBlock(c, NetworkAddress(c) + 1);
    }
  }

  // ----------------------------------------------------------------- peer addresses

  function PeerInSubnet(cidr: Option<Cidr>): Option<Ip>
    requires cidr.Some? ==> Valid(cidr.value)
  {
    if cidr.None? || NumAddresses(cidr.value) <= 1 then None
    else
      var c := cidr.value;
      var net := NetworkAddress(c);
      var shared := c.len < Width(c.ip.family) - 1;
      var first := if shared then net + 1 else net;
      var candidate := if first == c.ip.value then first + 1 else first;
      var usable := if shared && c.ip.family == V4 then candidate < Broadcast(c)
                    else InNetwork(Ip(c.ip.family, candidate), c);
      if usable then Some(Ip(c.ip.family, candidate)) else None
  }

  /** The other end of a /31 or /127. */
  function P2pPeer(c: Cidr): Option<Ip>
    requires Valid(c)
  {
    if c.len != Width(c.ip.family) - 1 then None
    else Some(Ip(c.ip.family,
                 if c.ip.value == NetworkAddress(c) then NetworkAddress(c) + 1 else NetworkAddress(c)))
  }

  /** The dotted-quad arithmetic that default routes use for a /31 peer. */
  function ParityPeer(a: Ip): Ip {
    a.(value := ParityValue(a.value))
  }

  function ParityValue(v: nat): nat {
    var (o0, o1, o2) := (v / 0x100_0000, v / 0x1_0000 % 256, v / 256 % 256);
    var host := v % 256;
    var peer := if host % 2 == 0 then host + 1 else host - 1;
    o0 * 0x100_0000 + o1 * 0x1_0000 + o2 * 256 + peer
  }

  /**
   * A peer exists exactly on prefixes of two or more addresses; it lies in the
   * prefix, differs from the address itself, and on an IPv4 prefix shorter than
   * /31 is neither the network nor the broadcast address.
   */
  lemma PeerIsOnLink(c: Cidr)
    requires Valid(c)
    ensures PeerInSubnet(Some(c)).Some? <==> NumAddresses(c) >= 2
    ensures PeerInSubnet(Some(c)).Some? ==>
              var p := PeerInSubnet(Some(c)).value;
              && InNetwork(p, c) && p != c.ip
              && (c.ip.family == V4 && c.len < 31 ==> NetworkAddress(c) < p.value < Broadcast(c))
  {
    BlockSize(c);
  }

  /**
   * Which address the peer is: on a block of two the other one; on a longer block the
   * first behind the network address, or the second where that is the address itself.
   */
  lemma PeerIs(c: Cidr, p: nat)
    requires Valid(c)
    ensures PeerInSubnet(Some(c)) == Some(Ip(c.ip.family, p)) <==>
              && c.len < Width(c.ip.family)
              && (if c.len == Width(c.ip.family) - 1 then p + c.ip.value == 2 * NetworkAddress(c) + 1
                  else p == NetworkAddress(c) + (if c.ip.value == NetworkAddress(c) + 1 then 2 else 1))
    ensures PeerInSubnet(Some(c)).Some? ==> PeerInSubnet(Some(c)).value.family == c.ip.family
  {
    BlockSize(c);
  }

  /**
   * Which address an interface uses: a tenant's network address gives way to the first
   * host behind it where the block is longer than two; any other stays.
   */
  lemma NormalizeL3AddrIs(c: Cidr, tenant: bool)
    requires Valid(c)
    ensures NormalizeL3Addr(c, tenant)
         == if tenant && c.len + 2 <= Width(c.ip.family) && c.ip.value == NetworkAddress(c)
            then Cidr(Ip(c.ip.family, NetworkAddress(c) + 1), c.len) else c
  {
    BlockSize(c);
  }

  /** On /31 and /127 the two peer computations agree, and taking the peer twice returns. */
  lemma PeerIsInvolution(c: Cidr)
    requires Valid(c) && c.len == Width(c.ip.family) - 1
    ensures PeerInSubnet(Some(c)).Some? && PeerInSubnet(Some(c)) == P2pPeer(c)
    ensures Valid(c.(ip := P2pPeer(c).value))
    ensures PeerInSubnet(Some(c.(ip := P2pPeer(c).value))) == Some(c.ip)
  {
    BlockSize(c);
    SameBlock(c, P2pPeer(c).value.value);
  }

  lemma OctetsRecombine(v: nat)
    ensures v / 0x100_0000 * 0x100_0000 + v / 0x1_0000 % 256 * 0x1_0000 + v / 256 % 256 * 256 + v % 256 == v
  {
    var h := v / 256;
    var g := h / 256;
    assert v / 0x1_0000 == g && v / 0x100_0000 == g / 256;
  }

  /** The octet-parity formula computes the /31 peer. */
  lemma ParityPeerIsPeer(c: Cidr)
    requires Valid(c) && c.ip.family == V4 && c.len == 31
    ensures PeerInSubnet(Some(c)) == Some(ParityPeer(c.ip))
  {
    BlockSize(c);
    hide Pow2, ParityValue;
    ParityValueIsNeighbour(c.ip.value);
    assert NumAddresses(c) == 2;
  }

  lemma ParityValueIsNeighbour(v: nat)
    ensures ParityValue(v) == if v % 2 == 0 then v + 1 else v - 1
  {
    OctetsRecombine(v);
    LastOctetParity(v, v / 256, v % 256);
  }

  lemma LastOctetParity(v: nat, high: nat, low: nat)
    requires v == 256 * high + low
    ensures low % 2 == v % 2
  {
  }
}
