/**
 * Protected reservations for Kea
 * (docker-clab-frr-plus-tooling/protected-reservation-materializer.py): the checks
 * of one record, the scan that keeps identities and addresses unique, and the merge
 * into the template's reservations.
 */
module Reservations {
  import opened Arithmetic
  import opened Common
  import opened Text
  import opened Addressing

  /** A decoded JSON value; `Fraction` is any number that is not an integer. */
  datatype Json =
    | Null | Bool(b: bool) | Num(n: int) | Fraction | Str(s: string) | Arr(items: seq<Json>)
    | Obj(fields: map<string, Json>)

  datatype ReservationError = ContractViolation | PublicationHostnameMissing

  /** `dict.get`: a missing field reads as null. */
  function Get(record: Json, field: string): Json
    requires record.Obj?
  {
    if field in record.fields then record.fields[field] else Null
  }

  const SCHEMA_FIELDS := {"id", "scope", "ipv4", "ipv6", "hostname"}

  /** The address parser of the standard library on text, and its inverse. */
  datatype IpText = IpText(parse: (Family, string) -> Option<nat>, show: (Family, nat) -> string)

  ghost predicate IsIpText(ip: IpText) {
    && (forall f, t :: ip.parse(f, t).Some? ==> ip.parse(f, t).value < Pow2(Width(f)))
    && (forall f, n: nat :: n < Pow2(Width(f)) ==> ip.parse(f, ip.show(f, n)) == Some(n))
  }

  // --------------------------------------------------------------- the fields of a record

  predicate IsHostname(text: string) {
    && text != "" && IsAlnum(text[0])
    && forall i | 0 <= i < |text| :: IsAlnum(text[i]) || text[i] in {'.', '_', '-'}
  }

  /** Six pairs of hex digits separated by colons. */
  predicate IsMac(text: string) {
    |text| == 17 && forall i | 0 <= i < 17 :: if i % 3 == 2 then text[i] == ':' else IsHex(text[i])
  }

  /** An address constructor also takes integers, and a boolean is one. */
  function AddressOf(ip: IpText, f: Family, value: Json): Option<nat> {
    match value
    case Str(s) => ip.parse(f, s)
    case Num(n) => if 0 <= n < Pow2(Width(f)) then Some(n) else None
    case Bool(b) => Some(if b then 1 else 0)
    case _ => None
  }

  function Pairs(text: string): string {
    if |text| <= 2 then text else text[..2] + ":" + Pairs(text[2..])
  }

  predicate IsDuid(compact: string) {
    |compact| % 2 == 0 && 4 <= |compact| <= 260 && AllHex(compact)
  }

  function NormalizedDuid(text: string): Option<string> {
    if IsDuid(Compact(text)) then Some(Pairs(Lower(Compact(text)))) else None
  }

  function NormalizedIid(text: string): Option<nat> {
    if |Compact(text)| == 16 && AllHex(Compact(text)) then Some(HexValue(Compact(text))) else None
  }

  datatype Identity = Identity(address: nat, key: string)

  function Ipv4Identity(ip: IpText, value: Json): Option<Identity> {
    if !value.Obj? || value.fields.Keys != {"address", "mac-address"} then None
    else
      var (address, mac) := (AddressOf(ip, V4, value.fields["address"]), value.fields["mac-address"]);
      if address.None? || !mac.Str? || !IsMac(mac.s) then None
      else Some(Identity(address.value, Lower(mac.s)))
  }

  /** The declared interface identifier must be the low 64 bits of the address. */
  function Ipv6Identity(ip: IpText, value: Json): Option<Identity> {
    if !value.Obj? || value.fields.Keys != {"address", "iid", "iid-stability", "duid", "iaid"} then None
    else
      var address := AddressOf(ip, V6, value.fields["address"]);
      var (iid, duid, iaid) := (value.fields["iid"], value.fields["duid"], value.fields["iaid"]);
      if address.None? || !iid.Str? || NormalizedIid(iid.s).None? then None
      else if value.fields["iid-stability"] != Str("stable") then None
      else if address.value % Pow2(64) != NormalizedIid(iid.s).value then None
      else if !duid.Str? || NormalizedDuid(duid.s).None? then None
      else if !iaid.Num? || !(0 <= iaid.n <= 0xFFFF_FFFF) then None
      else Some(Identity(address.value, NormalizedDuid(duid.s).value))
  }

  function IdentityOf(ip: IpText, f: Family, record: Json): Option<Identity>
    requires record.Obj?
  {
    if f == V4 then Ipv4Identity(ip, Get(record, "ipv4")) else Ipv6Identity(ip, Get(record, "ipv6"))
  }

  // -------------------------------------------------------------- DUID normalisation

  lemma {:induction false} CompactOfPairs(text: string)
    requires AllHex(text)
    ensures Compact(Pairs(text)) == text
  {
    if |text| <= 2 {
      CompactOfHex(text);
    } else {
      CompactOfHex(text[..2]);
      CompactOfPairs(text[2..]);
      CompactAppend(text[..2] + ":", Pairs(text[2..]));
      CompactAppend(text[..2], ":");
      assert text == text[..2] + text[2..];
    }
  }

  lemma LowerIsStable(text: string)
    ensures Lower(Lower(text)) == Lower(text) && |Lower(text)| == |text|
    ensures AllHex(text) ==> AllHex(Lower(text))
  {
  }

  /** Normalising a DUID is idempotent and identifies exactly the inputs with equal hex digits. */
  lemma DuidNormalForm(a: string, b: string)
    requires NormalizedDuid(a).Some? && NormalizedDuid(b).Some?
    ensures NormalizedDuid(NormalizedDuid(a).value) == NormalizedDuid(a)
    ensures NormalizedDuid(a) == NormalizedDuid(b) <==> Lower(Compact(a)) == Lower(Compact(b))
  {
    LowerIsStable(Compact(a));
    LowerIsStable(Compact(b));
    CompactOfPairs(Lower(Compact(a)));
    CompactOfPairs(Lower(Compact(b)));
  }

  // ----------------------------------------------------------------- the scan for Kea

  datatype Scope = Scope(family: Family, name: string, network: Cidr, poolStart: nat, poolEnd: nat)

  /** The arguments are accepted: a strict prefix of the family and a pool inside it. */
  predicate ValidScope(s: Scope) {
    && s.name != "" && Valid(s.network) && s.network.ip.family == s.family && Network(s.network) == s.network
    && InNetwork(Ip(s.family, s.poolStart), s.network) && InNetwork(Ip(s.family, s.poolEnd), s.network)
    && s.poolStart <= s.poolEnd
  }

  datatype Reservation = Reservation(id: string, identity: Identity, hostname: Option<string>)

  /** A record that passes every check that looks at it alone. */
  function KeaRecord(ip: IpText, s: Scope, record: Json): Option<Reservation>
    requires ValidScope(s)
  {
    if !record.Obj? || !(record.fields.Keys <= SCHEMA_FIELDS) then None
    else
      var (id, hostname) := (Get(record, "id"), Get(record, "hostname"));
      if !id.Str? || id.s == "" || Get(record, "scope") != Str(s.name) then None
      else if hostname != Null && !(hostname.Str? && IsHostname(hostname.s)) then None
      else
        var identity := IdentityOf(ip, s.family, record);
        if identity.None? || !InNetwork(Ip(s.family, identity.value.address), s.network) then None
        else Some(Reservation(id.s, identity.value, if hostname.Str? then Some(hostname.s) else None))
  }

  predicate AllPass(ip: IpText, s: Scope, source: seq<Json>)
    requires ValidScope(s)
  {
    forall i | 0 <= i < |source| :: KeaRecord(ip, s, source[i]).Some?
  }

  function Passed(ip: IpText, s: Scope, source: seq<Json>): seq<Reservation>
    requires ValidScope(s) && AllPass(ip, s, source)
  {
    seq(|source|, i requires 0 <= i < |source| => KeaRecord(ip, s, source[i]).value)
  }

  /** Handles, identities and addresses are all pairwise distinct. */
  ghost predicate Distinct(rs: seq<Reservation>) {
    forall i, j | 0 <= i < j < |rs| ::
      rs[i].id != rs[j].id && rs[i].identity.key != rs[j].identity.key
          && rs[i].identity.address != rs[j].identity.address
  }

  predicate OutOfPool(s: Scope, r: Reservation) {
    !(s.poolStart <= r.identity.address <= s.poolEnd)
  }

  /**
   * The source is accepted exactly when it is non-empty, every record passes and no
   * handle, identity or address recurs; the reservations come out in source order and
   * the flag tells whether some address lies outside the pool.
   */
  method MaterializeRecords(ip: IpText, s: Scope, source: seq<Json>)
      returns (r: Result<(seq<Reservation>, bool, set<string>), ReservationError>)
    requires ValidScope(s)
    ensures r.Ok? <==> source != [] && AllPass(ip, s, source) && Distinct(Passed(ip, s, source))
    ensures r.Ok? ==>
              && r.value.0 == Passed(ip, s, source)
              && (r.value.1 <==> exists x | x in r.value.0 :: x.identity.address < s.poolStart
                                                               || s.poolEnd < x.identity.address)
              && (forall id :: id in r.value.2 <==> exists x | x in r.value.0 :: x.id == id)
    ensures r.Ok? ==> forall x | x in r.value.0 :: InNetwork(Ip(s.family, x.identity.address), s.network)
  {
    if source == [] {
      return Err(ContractViolation);
    }
    hide KeaRecord, ValidScope;
    var emitted: seq<Reservation> := [];
    var ids: set<string>, identities: set<string>, addresses: set<nat> := {}, {}, {};
    var outOfPool := false;
    for i := 0 to |source|
      invariant AllPass(ip, s, source[..i]) && emitted == Passed(ip, s, source[..i]) && Distinct(emitted)
      invariant ids == Ids(emitted) && identities == Identities(emitted) && addresses == AddressesOf(emitted)
      invariant outOfPool <==> exists x | x in emitted :: OutOfPool(s, x)
    {
      var checked := KeaRecord(ip, s, source[i]);
      if checked.None? {
        return Err(ContractViolation);
      }
      var x := checked.value;
      DistinctStep(emitted, x);
      PassedStep(ip, s, source, i);
      if x.id in ids || x.identity.key in identities || x.identity.address in addresses {
        return Err(ContractViolation);
      }
      hide AllPass, Passed, Distinct, Ids, Identities, AddressesOf, OutOfPool;
      ids, identities, addresses := ids + {x.id}, identities + {x.identity.key}, addresses + {x.identity.address};
      outOfPool := outOfPool || OutOfPool(s, x);
      ghost var before := emitted;
      emitted := emitted + [x];
      assert forall y :: y in emitted <==> y in before || y == x;
    }
    assert source[..|source|] == source;
    PassedInNetwork(ip, s, source);
    return Ok((emitted, outOfPool, ids));
  }

  function Ids(rs: seq<Reservation>): set<string> {
    set x | x in rs :: x.id
  }

  function Identities(rs: seq<Reservation>): set<string> {
    set x | x in rs :: x.identity.key
  }

  function AddressesOf(rs: seq<Reservation>): set<nat> {
    set x | x in rs :: x.identity.address
  }

  lemma DistinctStep(rs: seq<Reservation>, x: Reservation)
    ensures Distinct(rs + [x]) <==>
              Distinct(rs) && x.id !in Ids(rs) && x.identity.key !in Identities(rs)
                  && x.identity.address !in AddressesOf(rs)
    ensures Ids(rs + [x]) == Ids(rs) + {x.id} && Identities(rs + [x]) == Identities(rs) + {x.identity.key}
    ensures AddressesOf(rs + [x]) == AddressesOf(rs) + {x.identity.address}
  {
    var all := rs + [x];
    assert forall y :: y in all <==> y in rs || y == x;
    if Distinct(all) {
      forall i | 0 <= i < |rs|
        ensures rs[i].id != x.id && rs[i].identity.key != x.identity.key && rs[i].identity.address != x.identity.address
      {
        assert all[i] == rs[i] && all[|rs|] == x;
      }
      forall i, j | 0 <= i < j < |rs|
        ensures rs[i].id != rs[j].id && rs[i].identity.key != rs[j].identity.key
                && rs[i].identity.address != rs[j].identity.address
      {
        assert all[i] == rs[i] && all[j] == rs[j];
      }
    }
  }

  /** One more passing record; a clash among the first records is a clash in the whole source. */
  lemma PassedStep(ip: IpText, s: Scope, source: seq<Json>, i: nat)
    requires ValidScope(s) && i < |source| && AllPass(ip, s, source[..i]) && KeaRecord(ip, s, source[i]).Some?
    ensures AllPass(ip, s, source[..i + 1])
    ensures Passed(ip, s, source[..i + 1]) == Passed(ip, s, source[..i]) + [KeaRecord(ip, s, source[i]).value]
    ensures AllPass(ip, s, source) && Distinct(Passed(ip, s, source)) ==> Distinct(Passed(ip, s, source[..i + 1]))
  {
    hide KeaRecord, ValidScope;
    assert source[..i + 1] == source[..i] + [source[i]];
    if AllPass(ip, s, source) {
      var all, first := Passed(ip, s, source), Passed(ip, s, source[..i + 1]);
      assert first == all[..i + 1];
      assert forall k | 0 <= k < |first| :: first[k] == all[k];
    }
  }

  lemma PassedInNetwork(ip: IpText, s: Scope, source: seq<Json>)
    requires ValidScope(s) && AllPass(ip, s, source)
    ensures forall x | x in Passed(ip, s, source) :: InNetwork(Ip(s.family, x.identity.address), s.network)
  {
  }

  // -------------------------------------------------------------- merging into the template

  /** A reservation of the Kea configuration, by its identity and its address text. */
  datatype Entry = Entry(key: string, address: string, hostname: Option<string>)

  datatype Subnet = Subnet(reservations: seq<Entry>, inSubnet: bool, outOfPool: bool)

  function EntryOf(ip: IpText, f: Family, r: Reservation): Entry {
    Entry(r.identity.key, ip.show(f, r.identity.address), r.hostname)
  }

  function EntriesOf(ip: IpText, f: Family, rs: seq<Reservation>): seq<Entry> {
    seq(|rs|, i requires 0 <= i < |rs| => EntryOf(ip, f, rs[i]))
  }

  predicate DistinctEntries(entries: seq<Entry>) {
    forall i, j | 0 <= i < j < |entries| :: entries[i].key != entries[j].key && entries[i].address != entries[j].address
  }

  function Elements(xs: seq<string>): set<string> {
    set x | x in xs
  }

  function KeysOf(entries: seq<Entry>): seq<string> {
    seq(|entries|, i requires 0 <= i < |entries| => entries[i].key)
  }

  function AddressTexts(entries: seq<Entry>): seq<string> {
    seq(|entries|, i requires 0 <= i < |entries| => entries[i].address)
  }

  predicate PairwiseDistinct(xs: seq<string>) {
    forall i, j | 0 <= i < j < |xs| :: xs[i] != xs[j]
  }

  lemma OneMoreText(rest: seq<string>, x: string)
    ensures Elements(rest + [x]) == Elements(rest) + {x} && (x in Elements(rest) <==> x in rest)
    ensures PairwiseDistinct(rest + [x]) <==> PairwiseDistinct(rest) && x !in rest
  {
    var xs := rest + [x];
    assert forall k | 0 <= k < |rest| :: xs[k] == rest[k] && rest[k] in rest;
    if x in rest {
      var k :| 0 <= k < |rest| && rest[k] == x;
      assert xs[k] == xs[|rest|];
    } else if PairwiseDistinct(xs) {
      forall i, j | 0 <= i < j < |rest|
        ensures rest[i] != rest[j]
      {
        assert xs[i] != xs[j];
      }
    }
  }

  /** As many elements as positions means no two positions hold the same text. */
  lemma {:induction false} CountMeansDistinct(xs: seq<string>)
    ensures |Elements(xs)| <= |xs|
    ensures |Elements(xs)| == |xs| <==> PairwiseDistinct(xs)
  {
    if xs != [] {
      var rest, x := xs[..|xs| - 1], xs[|xs| - 1];
      hide Elements, PairwiseDistinct;
      CountMeansDistinct(rest);
      assert xs == rest + [x];
      OneMoreText(rest, x);
      if x in rest {
        assert Elements(rest) + {x} == Elements(rest);
      } else {
        assert |Elements(rest) + {x}| == |Elements(rest)| + 1;
      }
    }
  }

  lemma EntriesByColumn(entries: seq<Entry>)
    ensures DistinctEntries(entries) <==>
              PairwiseDistinct(KeysOf(entries)) && PairwiseDistinct(AddressTexts(entries))
  {
    forall i, j | 0 <= i < j < |entries|
      ensures KeysOf(entries)[i] == entries[i].key && AddressTexts(entries)[i] == entries[i].address
      ensures KeysOf(entries)[j] == entries[j].key && AddressTexts(entries)[j] == entries[j].address
    {
    }
  }

  method InsertReservations(subnets: seq<Subnet>, fresh_: seq<Entry>, outOfPool: bool)
      returns (r: Result<seq<Subnet>, ReservationError>)
    ensures r.Ok? <==> |subnets| == 1 && DistinctEntries(subnets[0].reservations + fresh_)
    ensures r.Ok? ==> r.value == [Subnet(subnets[0].reservations + fresh_, true, outOfPool)]
  {
    if |subnets| != 1 {
      return Err(ContractViolation);
    }
    var combined := subnets[0].reservations + fresh_;
    CountMeansDistinct(KeysOf(combined));
    CountMeansDistinct(AddressTexts(combined));
    EntriesByColumn(combined);
    if |Elements(KeysOf(combined))| != |combined| || |Elements(AddressTexts(combined))| != |combined| {
      return Err(ContractViolation);
    }
    return Ok([Subnet(combined, true, outOfPool)]);
  }

  /** Materialised reservations never clash among themselves; only the template can make the merge fail. */
  lemma MergeFailsOnlyOnTemplate(ip: IpText, s: Scope, existing: seq<Entry>, rs: seq<Reservation>)
    requires ValidScope(s) && IsIpText(ip) && Distinct(rs)
    requires forall i | 0 <= i < |rs| :: InNetwork(Ip(s.family, rs[i].identity.address), s.network)
    ensures DistinctEntries(EntriesOf(ip, s.family, rs))
    ensures DistinctEntries(existing + EntriesOf(ip, s.family, rs)) <==>
              DistinctEntries(existing) &&
              forall i, j | 0 <= i < |existing| && 0 <= j < |rs| ::
                existing[i].key != rs[j].identity.key
                    && existing[i].address != ip.show(s.family, rs[j].identity.address)
  {
    var entries := EntriesOf(ip, s.family, rs);
    forall i, j | 0 <= i < j < |rs|
      ensures entries[i].key != entries[j].key && entries[i].address != entries[j].address
    {
      SameBlock(s.network, rs[i].identity.address);
      SameBlock(s.network, rs[j].identity.address);
    }
    var all, n := existing + entries, |existing|;
    assert forall i | 0 <= i < n :: all[i] == existing[i];
    assert forall j | n <= j < |all| :: all[j] == entries[j - n];
    if DistinctEntries(all) {
      forall i, j | 0 <= i < j < n
        ensures existing[i].key != existing[j].key && existing[i].address != existing[j].address
      {
        assert all[i] == existing[i] && all[j] == existing[j];
      }
      forall i, j | 0 <= i < n && 0 <= j < |rs|
        ensures existing[i].key != rs[j].identity.key
                && existing[i].address != ip.show(s.family, rs[j].identity.address)
      {
        assert all[i].key != all[n + j].key && all[i].address != all[n + j].address;
      }
    }
  }

  // ---------------------------------------------- what the merge promises about addresses

  /** The normal form of an identity text: a lower-cased MAC address, or a DUID of colon-separated pairs. */
  function NormalKey(f: Family, text: string): Option<string> {
    if f == V6 then NormalizedDuid(text) else if IsMac(text) then Some(Lower(text)) else None
  }

  predicate SameAddress(ip: IpText, f: Family, a: Entry, b: Entry) {
    ip.parse(f, a.address).Some? && ip.parse(f, a.address) == ip.parse(f, b.address)
  }

  predicate SameIdentity(f: Family, a: Entry, b: Entry) {
    NormalKey(f, a.key).Some? && NormalKey(f, a.key) == NormalKey(f, b.key)
  }

  /** No two entries mean one address or one identity, however they are spelled. */
  ghost predicate ReservedOnce(ip: IpText, f: Family, entries: seq<Entry>) {
    forall i, j | 0 <= i < j < |entries| ::
      !SameAddress(ip, f, entries[i], entries[j]) && !SameIdentity(f, entries[i], entries[j])
  }

  /** The entry spells its address and identity as the materializer would. */
  predicate Canonical(ip: IpText, f: Family, e: Entry) {
    && (ip.parse(f, e.address).Some? ==> e.address == ip.show(f, ip.parse(f, e.address).value))
    && (NormalKey(f, e.key).Some? ==> e.key == NormalKey(f, e.key).value)
  }

  /** Reservations as `MaterializeRecords` returns them. */
  ghost predicate Materialised(s: Scope, rs: seq<Reservation>)
    requires ValidScope(s)
  {
    && Distinct(rs)
    && forall x | x in rs ::
         InNetwork(Ip(s.family, x.identity.address), s.network)
         && NormalKey(s.family, x.identity.key) == Some(x.identity.key)
  }

  lemma LowerMac(text: string)
    requires IsMac(text)
    ensures IsMac(Lower(text)) && Lower(Lower(text)) == Lower(text)
  {
    LowerIsStable(text);
  }

  lemma PassedIsMaterialised(ip: IpText, s: Scope, source: seq<Json>)
    requires ValidScope(s) && AllPass(ip, s, source) && Distinct(Passed(ip, s, source))
    ensures Materialised(s, Passed(ip, s, source))
  {
    forall x | x in Passed(ip, s, source)
      ensures InNetwork(Ip(s.family, x.identity.address), s.network)
      ensures NormalKey(s.family, x.identity.key) == Some(x.identity.key)
    {
      var i :| 0 <= i < |source| && x == KeaRecord(ip, s, source[i]).value;
      var record := source[i];
      if s.family == V4 {
        LowerMac(Get(record, "ipv4").fields["mac-address"].s);
      } else {
        var duid := Get(record, "ipv6").fields["duid"].s;
        DuidNormalForm(duid, duid);
      }
    }
  }

  lemma EntryIsCanonical(ip: IpText, s: Scope, x: Reservation)
    requires ValidScope(s) && IsIpText(ip) && InNetwork(Ip(s.family, x.identity.address), s.network)
    requires NormalKey(s.family, x.identity.key) == Some(x.identity.key)
    ensures Canonical(ip, s.family, EntryOf(ip, s.family, x))
    ensures ip.parse(s.family, EntryOf(ip, s.family, x).address) == Some(x.identity.address)
  {
    SameBlock(s.network, x.identity.address);
  }

  lemma CanonicalApart(ip: IpText, f: Family, entries: seq<Entry>)
    requires DistinctEntries(entries) && forall e | e in entries :: Canonical(ip, f, e)
    ensures ReservedOnce(ip, f, entries)
  {
    hide NormalKey;
    forall i, j | 0 <= i < j < |entries|
      ensures !SameAddress(ip, f, entries[i], entries[j]) && !SameIdentity(f, entries[i], entries[j])
    {
      assert entries[i] in entries && entries[j] in entries;
    }
  }

  /** A normalised identity and an address that the template does not use as texts. */
  ghost predicate HasRoom(ip: IpText, f: Family, existing: seq<Entry>) {
    && (exists k :: NormalKey(f, k) == Some(k) && forall e | e in existing :: e.key != k)
    && (exists m: nat :: m < Pow2(Width(f)) && forall e | e in existing :: e.address != ip.show(f, m))
  }

  /** Every accepted merge of the template with materialised records reserves no address or identity twice. */
  ghost predicate MergesReserveOnce(ip: IpText, f: Family, existing: seq<Entry>) {
    forall s, rs | ValidScope(s) && s.family == f && Materialised(s, rs)
        && DistinctEntries(existing + EntriesOf(ip, f, rs)) ::
      ReservedOnce(ip, f, existing + EntriesOf(ip, f, rs))
  }

  /**
   * The merge compares texts. An accepted merge therefore never reserves an address or
   * identity twice if and only if the template spells all of its own canonically.
   */
  lemma MergesReserveOnceIff(ip: IpText, f: Family, existing: seq<Entry>)
    requires IsIpText(ip) && DistinctEntries(existing) && HasRoom(ip, f, existing)
    ensures MergesReserveOnce(ip, f, existing) <==> forall e | e in existing :: Canonical(ip, f, e)
  {
    if forall e | e in existing :: Canonical(ip, f, e) {
      forall s, rs | ValidScope(s) && s.family == f && Materialised(s, rs)
                     && DistinctEntries(existing + EntriesOf(ip, f, rs))
        ensures ReservedOnce(ip, f, existing + EntriesOf(ip, f, rs))
      {
        CanonicalMerge(ip, s, existing, rs);
      }
    } else {
      var e :| e in existing && !Canonical(ip, f, e);
      AliasedMerge(ip, f, existing, e);
    }
  }

  lemma CanonicalMerge(ip: IpText, s: Scope, existing: seq<Entry>, rs: seq<Reservation>)
    requires IsIpText(ip) && ValidScope(s) && Materialised(s, rs)
    requires forall e | e in existing :: Canonical(ip, s.family, e)
    requires DistinctEntries(existing + EntriesOf(ip, s.family, rs))
    ensures ReservedOnce(ip, s.family, existing + EntriesOf(ip, s.family, rs))
  {
    var entries := EntriesOf(ip, s.family, rs);
    forall e | e in existing + entries
      ensures Canonical(ip, s.family, e)
    {
      if e in entries {
        var i :| 0 <= i < |entries| && entries[i] == e;
        assert rs[i] in rs;
        EntryIsCanonical(ip, s, rs[i]);
      }
    }
    CanonicalApart(ip, s.family, existing + entries);
  }

  /** The scope of a whole address family. */
  function WholeFamily(f: Family): Scope {
    Scope(f, "all", Cidr(Ip(f, 0), 0), 0, 0)
  }

  lemma WholeFamilyHolds(f: Family)
    ensures ValidScope(WholeFamily(f))
    ensures forall n: nat | n < Pow2(Width(f)) :: InNetwork(Ip(f, n), WholeFamily(f).network)
  {
    hide Pow2;
    var c := WholeFamily(f).network;
    assert Valid(c) && NumAddresses(c) == Pow2(Width(f));
    Division(0, 0, NumAddresses(c), 0);
    assert NetworkAddress(c) == 0 && Network(c) == c;
  }

  /** A new record that means what `e` spells differently, or nothing new at all, breaks the promise. */
  lemma AliasedMerge(ip: IpText, f: Family, existing: seq<Entry>, e: Entry)
    requires IsIpText(ip) && DistinctEntries(existing) && HasRoom(ip, f, existing)
    requires e in existing && !Canonical(ip, f, e)
    ensures !MergesReserveOnce(ip, f, existing)
  {
    hide NormalKey, MergesReserveOnce, DistinctEntries;
    var freeKey :| NormalKey(f, freeKey) == Some(freeKey) && forall x | x in existing :: x.key != freeKey;
    var freeAddress: nat :|
      freeAddress < Pow2(Width(f)) && forall x | x in existing :: x.address != ip.show(f, freeAddress);
    var n := ip.parse(f, e.address);
    if n.Some? && e.address != ip.show(f, n.value) {
      AliasBreaks(ip, f, existing, e, Reservation("r", Identity(n.value, freeKey), None));
    } else {
      var k := NormalKey(f, e.key).value;
      NormalKeyIsNormal(f, e.key);
      AliasBreaks(ip, f, existing, e, Reservation("r", Identity(freeAddress, k), None));
    }
  }

  lemma NormalKeyIsNormal(f: Family, text: string)
    requires NormalKey(f, text).Some?
    ensures NormalKey(f, NormalKey(f, text).value) == NormalKey(f, text)
  {
    if f == V4 {
      LowerMac(text);
    } else {
      DuidNormalForm(text, text);
    }
  }

  lemma AliasBreaks(ip: IpText, f: Family, existing: seq<Entry>, e: Entry, r: Reservation)
    requires IsIpText(ip) && DistinctEntries(existing) && e in existing
    requires r.identity.address < Pow2(Width(f)) && NormalKey(f, r.identity.key) == Some(r.identity.key)
    requires e.key != r.identity.key && e.address != ip.show(f, r.identity.address)
    requires SameAddress(ip, f, e, EntryOf(ip, f, r)) || SameIdentity(f, e, EntryOf(ip, f, r))
    requires SameAddress(ip, f, e, EntryOf(ip, f, r)) ==> forall x | x in existing :: x.key != r.identity.key
    requires !SameAddress(ip, f, e, EntryOf(ip, f, r)) ==>
               forall x | x in existing :: x.address != ip.show(f, r.identity.address)
    ensures !MergesReserveOnce(ip, f, existing)
  {
    hide NormalKey, ValidScope, InNetwork;
    WholeFamilyHolds(f);
    var (s, entry) := (WholeFamily(f), EntryOf(ip, f, r));
    var i :| 0 <= i < |existing| && existing[i] == e;
    assert Materialised(s, []) && Materialised(s, [r]);
    if j :| 0 <= j < |existing| && (existing[j].key == entry.key || existing[j].address == entry.address) {
      assert existing + EntriesOf(ip, f, []) == existing;
      assert SameAddress(ip, f, existing[i], existing[j]) || SameIdentity(f, existing[i], existing[j]);
      assert SameAddress(ip, f, existing[j], existing[i]) || SameIdentity(f, existing[j], existing[i]);
      assert !ReservedOnce(ip, f, existing);
    } else {
      var all := existing + EntriesOf(ip, f, [r]);
      assert all == existing + [entry];
      assert forall k | 0 <= k < |existing| :: all[k] == existing[k];
      assert DistinctEntries(all);
      assert all[i] == e && all[|existing|] == entry;
      assert !ReservedOnce(ip, f, all);
    }
  }

  /** A template that spells ::5 as ::0005, and a protected record for ::5. */
  const TEMPLATE := [Entry("00:01", "::0005", None)]
  const RECORD := Obj(map[
    "id" := Str("r"), "scope" := Str("lan"),
    "ipv6" := Obj(map["address" := Num(5), "iid" := Str("0000000000000005"), "iid-stability" := Str("stable"),
                      "duid" := Str("00:02"), "iaid" := Num(1)])])

  /** The record is materialised and the merge accepted, and then ::5 is reserved twice. */
  lemma MergeReservesTwice(ip: IpText)
    requires IsIpText(ip) && ip.parse(V6, "::0005") == Some(5) && ip.show(V6, 5) == "::5"
    ensures (var s := Scope(V6, "lan", Cidr(Ip(V6, 0), 0), 0, 0);
             && ValidScope(s) && AllPass(ip, s, [RECORD]) && Distinct(Passed(ip, s, [RECORD]))
             && (var merged := TEMPLATE + EntriesOf(ip, V6, Passed(ip, s, [RECORD]));
                 DistinctEntries(merged) && !ReservedOnce(ip, V6, merged)))
  {
    var s := Scope(V6, "lan", Cidr(Ip(V6, 0), 0), 0, 0);
    RecordPasses(ip, s);
    hide KeaRecord, ValidScope, RECORD, TEMPLATE, ReservedOnce, DistinctEntries, EntriesOf, AllPass, Passed;
    var r := Reservation("r", Identity(5, "00:02"), None);
    OnePasses(ip, s, RECORD, r);
    MergedTwice(ip, r);
  }

  lemma OnePasses(ip: IpText, s: Scope, record: Json, r: Reservation)
    requires ValidScope(s) && KeaRecord(ip, s, record) == Some(r)
    ensures AllPass(ip, s, [record]) && Passed(ip, s, [record]) == [r]
  {
    hide KeaRecord, ValidScope;
  }

  lemma MergedTwice(ip: IpText, r: Reservation)
    requires IsIpText(ip) && ip.parse(V6, "::0005") == Some(5) && ip.show(V6, 5) == "::5"
    requires r == Reservation("r", Identity(5, "00:02"), None)
    ensures (var merged := TEMPLATE + EntriesOf(ip, V6, [r]); DistinctEntries(merged) && !ReservedOnce(ip, V6, merged))
  {
    hide Pow2, NormalKey;
    BigPowers();
    var merged := TEMPLATE + EntriesOf(ip, V6, [r]);
    assert ip.parse(V6, ip.show(V6, 5)) == Some(5);
    assert merged == [TEMPLATE[0], EntryOf(ip, V6, r)];
    assert "00:01"[4] != "00:02"[4] && |"::0005"| != |"::5"|;
    assert SameAddress(ip, V6, merged[0], merged[1]);
  }

  lemma RecordPasses(ip: IpText, s: Scope)
    requires s == Scope(V6, "lan", Cidr(Ip(V6, 0), 0), 0, 0)
    ensures ValidScope(s) && KeaRecord(ip, s, RECORD) == Some(Reservation("r", Identity(5, "00:02"), None))
  {
    hide Ipv6Identity, InNetwork, Pow2, NetworkAddress;
    WholeFamilyHolds(V6);
    BigPowers();
    assert "lan" != "" && "r" != "";
    IdentityPasses(ip);
    assert RECORD.fields.Keys == {"id", "scope", "ipv6"};
    assert "hostname" !in RECORD.fields.Keys;
    assert Get(RECORD, "hostname") == Null && Get(RECORD, "id") == Str("r") && Get(RECORD, "scope") == Str("lan");
  }

  lemma IdentityPasses(ip: IpText)
    ensures Ipv6Identity(ip, RECORD.fields["ipv6"]) == Some(Identity(5, "00:02"))
  {
    hide NormalizedIid, NormalizedDuid, Pow2;
    var value := RECORD.fields["ipv6"];
    assert value.fields.Keys == {"address", "iid", "iid-stability", "duid", "iaid"};
    FiveIid();
    TwoDuid();
    BigPowers();
  }

  lemma BigPowers()
    ensures 5 < Pow2(64) < Pow2(128) && 5 % Pow2(64) == 5
  {
    EightPower();
    hide Pow2;
    Pow2Sum(3, 61);
    Pow2Sum(64, 64);
    Eightfold(Pow2(64), Pow2(61), Pow2(128));
  }

  lemma EightPower()
    ensures Pow2(3) == 8
  {
  }

  lemma Eightfold(p: nat, q: nat, square: nat)
    requires q >= 1 && p == 8 * q && square == p * p
    ensures 5 < p < square && 5 % p == 5
  {
    NextMultiple(1, p, p);
    Division(5, 0, p, 5);
  }

  lemma FiveIid()
    ensures NormalizedIid("0000000000000005") == Some(5)
  {
    var (iid, zeros) := ("0000000000000005", "000000000000000");
    assert |iid| == 16 && iid[..15] == zeros && iid[15] == '5';
    ZeroHex(zeros);
    assert AllHex(iid) by {
      assert forall i | 0 <= i < 15 :: iid[i] == zeros[i];
    }
    CompactOfHex(iid);
    assert HexDigit('5') == 5;
    hide Compact;
  }

  lemma TwoDuid()
    ensures NormalizedDuid("00:02") == Some("00:02")
  {
    TwoCompact();
    hide Compact;
    var compact := "0002";
    assert AllHex(compact) && Lower(compact) == compact;
    assert compact[..2] == "00" && compact[2..] == "02";
    assert Pairs(compact) == "00:02";
  }

  lemma ColonVanishes()
    ensures Compact(":") == ""
  {
    assert ":"[1..] == "";
  }

  lemma ColonDropped(a: string, b: string)
    requires AllHex(a) && AllHex(b)
    ensures Compact(a + ":" + b) == a + b
  {
    ColonVanishes();
    hide Compact, AllHex;
    CompactOfHex(a);
    CompactOfHex(b);
    CompactAppend(a, ":");
    CompactAppend(a + ":", b);
  }

  lemma TwoCompact()
    ensures Compact("00:02") == "0002"
  {
    hide Compact;
    ColonDropped("00", "02");
    assert "00:02" == "00" + ":" + "02" && "0002" == "00" + "02";
  }

  lemma {:induction false} ZeroHex(text: string)
    requires forall i | 0 <= i < |text| :: text[i] == '0'
    ensures AllHex(text)
    ensures HexValue(text) == 0
  {
    if text != "" {
      ZeroHex(text[..|text| - 1]);
    }
  }
}
