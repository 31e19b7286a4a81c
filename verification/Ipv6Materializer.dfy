/**
 * Tenant prefixes and exact addresses from a protected IPv6 parent prefix: `derive`
 * of docker-clab-frr-plus-tooling/protected-ipv6-materializer.py.
 */
module Ipv6Materializer {
  import opened Arithmetic
  import opened Common
  import opened Addressing
  import Reservations

  datatype Derived = Tenant(prefix: Cidr) | Address(ip: Ip)

  /** The protected source as parsed: None when it is no prefix, and whether its text is the canonical one. */
  datatype Source = Source(parsed: Option<Cidr>, canonical: bool)

  function BitOr(a: nat, b: nat): nat {
    if a == 0 && b == 0 then 0
    else 2 * BitOr(a / 2, b / 2) + (if a % 2 == 1 || b % 2 == 1 then 1 else 0)
  }

  /** The strict parse of the parent, its declared length, and the slot range. */
  predicate AcceptedSlot(source: Source, delegated: int, tenantLength: int, slot: int) {
    && source.parsed.Some? && source.canonical
    && Valid(source.parsed.value) && Network(source.parsed.value) == source.parsed.value
    && source.parsed.value.ip.family == V6 && source.parsed.value.len == delegated
    && delegated <= tenantLength <= 128
    && 0 <= slot < Pow2(tenantLength - delegated)
  }

  function TenantOf(parent: Cidr, tenantLength: nat, slot: nat): Cidr
    requires tenantLength <= 128
  {
    Cidr(Ip(V6, parent.ip.value + slot * Pow2(128 - tenantLength)), tenantLength)
  }

  /** `subnet_of`: the first and last address of `c` lie in `parent`. */
  predicate SubnetOf(c: Cidr, parent: Cidr)
    requires Valid(c) && Valid(parent)
  {
    c.ip.family == parent.ip.family && NetworkAddress(parent) <= NetworkAddress(c) && Broadcast(c) <= Broadcast(parent)
  }

  /**
   * The tenant prefix of a slot, or with an interface identifier the exact address in
   * it; None is a refusal.  An identifier that does not parse is `Some(None)`.
   */
  function Derive(source: Source, delegated: int, tenantLength: int, slot: int,
                  identifier: Option<Option<nat>>): Option<Derived> {
    if !AcceptedSlot(source, delegated, tenantLength, slot) then None
    else
      var parent, tenant := source.parsed.value, TenantOf(source.parsed.value, tenantLength, slot);
      if !Valid(tenant) || Network(tenant) != tenant || !SubnetOf(tenant, parent) then None
      else if identifier.None? then Some(Tenant(tenant))
      else if tenant.len != 64 || identifier.value.None? || identifier.value.value >= Pow2(64) then None
      else
        var address := Ip(V6, BitOr(NetworkAddress(tenant), identifier.value.value));
        if !InNetwork(address, tenant) then None else Some(Address(address))
  }

  // ---------------------------------------------------------------------- arithmetic

  /** On disjoint bit ranges the bitwise or is the sum. */
  lemma {:induction false} BitOrDisjoint(q: nat, k: nat, b: nat)
    requires b < Pow2(k)
    ensures BitOr(q * Pow2(k), b) == q * Pow2(k) + b
    decreases k, q
  {
    if k == 0 {
      assert q * Pow2(0) == q && b == 0;
      BitOrZero(q);
    } else {
      var h := q * Pow2(k - 1);
      assert q * Pow2(k) == 2 * h;
      BitOrDisjoint(q, k - 1, b / 2);
      assert (2 * h) / 2 == h && (2 * h) % 2 == 0;
    }
  }

  lemma {:induction false} BitOrZero(a: nat)
    ensures BitOr(a, 0) == a
  {
    if a > 0 {
      BitOrZero(a / 2);
    }
  }

  /** Block `slot` of size `s` inside a block of `count * s` that starts at a multiple of its own size. */
  lemma SubBlock(base: nat, total: nat, count: nat, s: nat, slot: nat)
    requires s > 0 && total > 0 && total == count * s && base % total == 0 && slot < count
    ensures (base + slot * s) % s == 0
    ensures slot * s + s <= total
  {
    var q := base / total;
    assert base == q * total;
    calc {
      base + slot * s;
      q * (count * s) + slot * s;
      (q * count + slot) * s;
    }
    Division(base + slot * s, q * count + slot, s, 0);
    NextMultiple(slot, count, s);
  }

  /** The sub-block an offset falls into. */
  lemma OffsetSlot(offset: nat, s: nat, count: nat, other: nat)
    requires s > 0 && offset < count * s
    ensures offset / s < count && offset / s * s <= offset < offset / s * s + s
    ensures other != offset / s ==> !(other * s <= offset < other * s + s)
  {
    var slot := offset / s;
    assert offset == slot * s + offset % s;
    BlockFits(slot, s, count);
    if other < slot {
      NextMultiple(other, slot, s);
    } else if slot < other {
      NextMultiple(slot, other, s);
    }
  }

  /** The parent splits into as many tenant blocks as there are slots. */
  lemma SlotsFillParent(parent: Cidr, tenantLength: nat)
    requires Valid(parent) && parent.ip.family == V6 && parent.len <= tenantLength <= 128
    ensures NumAddresses(parent) == Pow2(tenantLength - parent.len) * Pow2(128 - tenantLength)
  {
    Pow2Sum(tenantLength - parent.len, 128 - tenantLength);
  }

  predicate AcceptedParent(parent: Cidr, tenantLength: nat) {
    && Valid(parent) && Network(parent) == parent && parent.ip.family == V6 && parent.len <= tenantLength <= 128
  }

  /** The tenant prefix of an accepted slot is aligned, has the tenant's size and lies in the parent. */
  lemma TenantIsAligned(parent: Cidr, tenantLength: nat, slot: nat)
    requires AcceptedParent(parent, tenantLength) && slot < Pow2(tenantLength - parent.len)
    ensures var tenant := TenantOf(parent, tenantLength, slot);
            && Valid(tenant) && Network(tenant) == tenant && SubnetOf(tenant, parent)
            && NumAddresses(tenant) == Pow2(128 - tenantLength)
  {
    hide Pow2;
    var s, count := Pow2(128 - tenantLength), Pow2(tenantLength - parent.len);
    SlotsFillParent(parent, tenantLength);
    SubBlock(parent.ip.value, NumAddresses(parent), count, s, slot);
    SameBlock(parent, parent.ip.value + slot * s);
  }

  // ------------------------------------------------------------------------- theorems

  /** Once the slot is accepted, none of the later checks on the tenant prefix can refuse it. */
  lemma AcceptedSlotHasTenant(source: Source, delegated: int, tenantLength: int, slot: int)
    ensures AcceptedSlot(source, delegated, tenantLength, slot) <==>
              Derive(source, delegated, tenantLength, slot, None).Some?
    ensures AcceptedSlot(source, delegated, tenantLength, slot) ==>
              Derive(source, delegated, tenantLength, slot, None)
              == Some(Tenant(TenantOf(source.parsed.value, tenantLength, slot)))
  {
    if AcceptedSlot(source, delegated, tenantLength, slot) {
      TenantIsAligned(source.parsed.value, tenantLength, slot);
    }
  }

  /** Every address of the parent lies in the tenant prefix of exactly one slot. */
  lemma SlotsTileParent(parent: Cidr, tenantLength: nat, a: Ip) returns (slot: nat)
    requires AcceptedParent(parent, tenantLength) && InNetwork(a, parent)
    ensures slot == (a.value - parent.ip.value) / Pow2(128 - tenantLength)
    ensures slot < Pow2(tenantLength - parent.len)
    ensures Valid(TenantOf(parent, tenantLength, slot)) && InNetwork(a, TenantOf(parent, tenantLength, slot))
    ensures forall other: nat | other < Pow2(tenantLength - parent.len) && other != slot ::
              Valid(TenantOf(parent, tenantLength, other)) && !InNetwork(a, TenantOf(parent, tenantLength, other))
  {
    hide Pow2;
    var s, count := Pow2(128 - tenantLength), Pow2(tenantLength - parent.len);
    var offset := a.value - parent.ip.value;
    slot := offset / s;
    SlotsFillParent(parent, tenantLength);
    OffsetSlot(offset, s, count, slot);
    TenantIsAligned(parent, tenantLength, slot);
    forall other: nat | other < count && other != slot
      ensures Valid(TenantOf(parent, tenantLength, other)) && !InNetwork(a, TenantOf(parent, tenantLength, other))
    {
      TenantIsAligned(parent, tenantLength, other);
      OffsetSlot(offset, s, count, other);
    }
  }

  /** Tenant prefixes of distinct slots share no address. */
  lemma DistinctSlotsAreDisjoint(parent: Cidr, tenantLength: nat, s1: nat, s2: nat, a: Ip)
    requires AcceptedParent(parent, tenantLength)
    requires s1 < Pow2(tenantLength - parent.len) && s2 < Pow2(tenantLength - parent.len)
    ensures (var (t1, t2) := (TenantOf(parent, tenantLength, s1), TenantOf(parent, tenantLength, s2));
             Valid(t1) && Valid(t2) && InNetwork(a, t1) && InNetwork(a, t2) ==> s1 == s2)
  {
    var (t1, t2) := (TenantOf(parent, tenantLength, s1), TenantOf(parent, tenantLength, s2));
    if Valid(t1) && Valid(t2) && InNetwork(a, t1) && InNetwork(a, t2) {
      TenantIsAligned(parent, tenantLength, s1);
      TenantIsAligned(parent, tenantLength, s2);
      var slot := SlotsTileParent(parent, tenantLength, a);
    }
  }

  /**
   * With a /64 tenant the exact address holds slot and identifier: it exists exactly
   * for an accepted slot and an identifier below 2^64, and both can be read back.
   */
  lemma AddressIsInvertible(source: Source, delegated: int, slot: int, identifier: nat)
    ensures Derive(source, delegated, 64, slot, Some(Some(identifier))).Some? <==>
              AcceptedSlot(source, delegated, 64, slot) && identifier < Pow2(64)
    ensures Derive(source, delegated, 64, slot, Some(Some(identifier))).Some? ==>
              var derived := Derive(source, delegated, 64, slot, Some(Some(identifier))).value;
              && derived.Address? && derived.ip.family == V6
              && derived.ip.value % Pow2(64) == identifier
              && (derived.ip.value - source.parsed.value.ip.value) / Pow2(64) == slot
  {
    hide Pow2, BitOr;
    if AcceptedSlot(source, delegated, 64, slot) && identifier < Pow2(64) {
      var parent := source.parsed.value;
      TenantIsAligned(parent, 64, slot);
      Combined(TenantOf(parent, 64, slot).ip.value, identifier);
      Division(slot * Pow2(64) + identifier, slot, Pow2(64), identifier);
    }
  }

  /** Base and identifier combine without touching each other's bits. */
  lemma Combined(base: nat, identifier: nat)
    requires base % Pow2(64) == 0 && identifier < Pow2(64)
    ensures BitOr(base, identifier) == base + identifier && (base + identifier) % Pow2(64) == identifier
  {
    hide Pow2, BitOr;
    var q := base / Pow2(64);
    assert base == q * Pow2(64);
    BitOrDisjoint(q, 64, identifier);
    Division(q * Pow2(64) + identifier, q, Pow2(64), identifier);
  }

  /** An address derived from an identifier passes the identifier check of the reservation materializer. */
  lemma DerivedAddressIsReservable(
      source: Source, delegated: int, slot: int, iid: string, ip: Reservations.IpText, record: Reservations.Json,
      address: Ip)
    requires Reservations.NormalizedIid(iid).Some?
    requires Derive(source, delegated, 64, slot, Some(Some(Reservations.NormalizedIid(iid).value)))
            == Some(Address(address))
    requires record.Obj? && record.fields.Keys == {"address", "iid", "iid-stability", "duid", "iaid"}
    requires Reservations.AddressOf(ip, V6, record.fields["address"]) == Some(address.value)
    requires record.fields["iid"] == Reservations.Str(iid)
    requires record.fields["iid-stability"] == Reservations.Str("stable")
    requires record.fields["duid"].Str? && Reservations.NormalizedDuid(record.fields["duid"].s).Some?
    requires record.fields["iaid"].Num? && 0 <= record.fields["iaid"].n <= 0xFFFF_FFFF
    ensures Reservations.Ipv6Identity(ip, record)
         == Some(Reservations.Identity(address.value, Reservations.NormalizedDuid(record.fields["duid"].s).value))
  {
    AddressIsInvertible(source, delegated, slot, Reservations.NormalizedIid(iid).value);
  }

  /** In fields: a tenant prefix is derived exactly from a canonical IPv6 parent of the declared length. */
  lemma DeriveTenantIff(source: Source, delegated: int, tenantLength: int, slot: int, t: Cidr)
    ensures Derive(source, delegated, tenantLength, slot, None) == Some(Tenant(t)) <==>
              && source.parsed.Some? && source.canonical
              && (var parent := source.parsed.value;
                  && Valid(parent) && parent.ip.value == NetworkAddress(parent) && parent.ip.family == V6
                  && parent.len == delegated <= tenantLength <= 128
                  && 0 <= slot < Pow2(tenantLength - delegated)
                  && t.len == tenantLength && t.ip.family == V6
                  && t.ip.value == parent.ip.value + slot * Pow2(128 - tenantLength))
  {
    hide Pow2, NetworkAddress, Valid, SubnetOf;
    AcceptedSlotHasTenant(source, delegated, tenantLength, slot);
    if source.parsed.Some? && Valid(source.parsed.value) {
      NetworkIs(source.parsed.value);
    }
    assert t == Cidr(Ip(t.ip.family, t.ip.value), t.len);
  }

  lemma NetworkIs(c: Cidr)
    requires Valid(c)
    ensures Network(c) == c <==> c.ip.value == NetworkAddress(c)
  {
    hide NetworkAddress;
  }
}
