/**
 * Protected reservation records told in the fields of their JSON
 * (docker-clab-frr-plus-tooling/protected-reservation-materializer.py): which records
 * pass, what they reserve, and which DNS lines a list of them gives.
 */
module ReservationFields {
  import opened Arithmetic
  import opened Common
  import opened Sorting
  import opened Text
  import opened Addressing
  import opened Reservations
  import opened ReservationDns

  // ------------------------------------------------------------------- the fields

  /** A text is read by the address parser; an integer in range and a boolean stand for themselves. */
  predicate IsAddress(ip: IpText, f: Family, v: Json, n: nat) {
    || (v.Str? && ip.parse(f, v.s) == Some(n))
    || (v.Num? && v.n == n && n < Pow2(if f == V4 then 32 else 128))
    || (v.Bool? && n == (if v.b then 1 else 0))
  }

  /** The object reserves the address for the hardware address `key`, in lower case. */
  predicate ReservesV4(ip: IpText, v: Json, address: nat, key: string) {
    && v.Obj? && v.fields.Keys == {"address", "mac-address"} && IsAddress(ip, V4, v.fields["address"], address)
    && v.fields["mac-address"].Str? && IsMac(v.fields["mac-address"].s) && key == Lower(v.fields["mac-address"].s)
  }

  /**
   * The object reserves the address for the client identifier `key`: the interface
   * identifier, sixteen hex digits apart from separators, is the low half of the address.
   */
  predicate ReservesV6(ip: IpText, v: Json, address: nat, key: string) {
    && v.Obj? && v.fields.Keys == {"address", "iid", "iid-stability", "duid", "iaid"}
    && IsAddress(ip, V6, v.fields["address"], address)
    && v.fields["iid-stability"] == Str("stable")
    && v.fields["iid"].Str? && v.fields["duid"].Str?
    && (var (iid, duid) := (Compact(v.fields["iid"].s), Compact(v.fields["duid"].s));
        && |iid| == 16 && AllHex(iid) && address % 0x1_0000_0000_0000_0000 == HexValue(iid)
        && |duid| % 2 == 0 && 4 <= |duid| <= 260 && AllHex(duid) && key == Pairs(Lower(duid)))
    && v.fields["iaid"].Num? && 0 <= v.fields["iaid"].n < 0x1_0000_0000
  }

  /** The field is missing or null. */
  predicate Lacks(record: Json, field: string)
    requires record.Obj?
  {
    field !in record.fields || record.fields[field] == Null
  }

  predicate Has(record: Json, field: string, v: Json)
    requires record.Obj?
  {
    field in record.fields && record.fields[field] == v
  }

  /** An object with no foreign field, the scope, and a handle. */
  predicate IsRecord(record: Json, scope: string, id: string) {
    && record.Obj? && (forall k | k in record.fields :: k in {"id", "scope", "ipv4", "ipv6", "hostname"})
    && Has(record, "scope", Str(scope)) && Has(record, "id", Str(id)) && id != ""
  }

  // ---------------------------------------------------------------- identities

  lemma Pow2Of64()
    ensures Pow2(64) == 0x1_0000_0000_0000_0000
  {
    PowersOfIpv4();
    Pow2Sum(32, 32);
  }

  lemma AddressIff(ip: IpText, f: Family, v: Json, n: nat)
    ensures AddressOf(ip, f, v) == Some(n) <==> IsAddress(ip, f, v, n)
  {
  }

  lemma Ipv4IdentityIff(ip: IpText, v: Json, address: nat, key: string)
    ensures Ipv4Identity(ip, v) == Some(Identity(address, key)) <==> ReservesV4(ip, v, address, key)
  {
    hide IsAddress, AddressOf, IsMac, Lower;
    if v.Obj? && v.fields.Keys == {"address", "mac-address"} {
      AddressIff(ip, V4, v.fields["address"], address);
    }
  }

  lemma Ipv6IdentityIff(ip: IpText, v: Json, address: nat, key: string)
    ensures Ipv6Identity(ip, v) == Some(Identity(address, key)) <==> ReservesV6(ip, v, address, key)
  {
    hide IsAddress, AddressOf, Lower, Compact, HexValue, Pairs, AllHex, Pow2;
    Pow2Of64();
    if v.Obj? && v.fields.Keys == {"address", "iid", "iid-stability", "duid", "iaid"} {
      AddressIff(ip, V6, v.fields["address"], address);
    }
  }

  // ---------------------------------------------------------------- Kea records

  /** Record `record` passes for Kea and becomes reservation `r`. */
  ghost predicate Reserves(ip: IpText, s: Scope, record: Json, r: Reservation)
    requires ValidScope(s)
  {
    && IsRecord(record, s.name, r.id)
    && (match r.hostname
        case None => Lacks(record, "hostname")
        case Some(h) => Has(record, "hostname", Str(h)) && IsHostname(h))
    && (if s.family == V4
        then "ipv4" in record.fields && ReservesV4(ip, record.fields["ipv4"], r.identity.address, r.identity.key)
        else "ipv6" in record.fields && ReservesV6(ip, record.fields["ipv6"], r.identity.address, r.identity.key))
    && InNetwork(Ip(s.family, r.identity.address), s.network)
  }

  lemma KeaRecordIff(ip: IpText, s: Scope, record: Json, r: Reservation)
    requires ValidScope(s)
    ensures KeaRecord(ip, s, record) == Some(r) <==> Reserves(ip, s, record, r)
  {
    hide ValidScope, Ipv4Identity, Ipv6Identity, ReservesV4, ReservesV6, IsHostname;
    assert SCHEMA_FIELDS == {"id", "scope", "ipv4", "ipv6", "hostname"};
    if record.Obj? {
      Ipv4IdentityIff(ip, Get(record, "ipv4"), r.identity.address, r.identity.key);
      Ipv6IdentityIff(ip, Get(record, "ipv6"), r.identity.address, r.identity.key);
      NullReservesNothing(ip);
      assert record.fields.Keys <= SCHEMA_FIELDS <==>
          forall k | k in record.fields :: k in {"id", "scope", "ipv4", "ipv6", "hostname"};
      assert r == Reservation(r.id, Identity(r.identity.address, r.identity.key), r.hostname);
    }
  }

  lemma NullReservesNothing(ip: IpText)
    ensures Ipv4Identity(ip, Null) == None && Ipv6Identity(ip, Null) == None
  {
  }

  // ----------------------------------------------------------------- DNS publication

  /** The record names `n`: its hostname, a dot and the namespace, in lower case. */
  predicate NamesHost(q: Request, record: Json, n: Name)
    requires record.Obj?
  {
    "hostname" in record.fields && record.fields["hostname"].Str?
    && n.text == Lower(record.fields["hostname"].s) + "." + Lower(q.namespace)
  }

  ghost predicate HasAddress(ip: IpText, record: Json, a: Ip)
    requires record.Obj?
  {
    match a.family
    case V4 => "ipv4" in record.fields && exists key :: ReservesV4(ip, record.fields["ipv4"], a.value, key)
    case V6 => "ipv6" in record.fields && exists key :: ReservesV6(ip, record.fields["ipv6"], a.value, key)
  }

  /** The address is of a class that was asked for. */
  predicate IsForward(q: Request, a: Ip) {
    (a.family == V4 && "A" in q.classes) || (a.family == V6 && "AAAA" in q.classes)
  }

  /**
   * The record publishes the address: it is of a class that was asked for, or pointers
   * were and the record has none of such a class.
   */
  ghost predicate PublishesAddress(ip: IpText, q: Request, record: Json, a: Ip)
    requires record.Obj?
  {
    && HasAddress(ip, record, a)
    && (IsForward(q, a) || ("PTR" in q.classes && forall b :: HasAddress(ip, record, b) ==> !IsForward(q, b)))
  }

  /** The record passes for DNS. */
  ghost predicate Passes(ip: IpText, q: Request, record: Json) {
    && record.Obj? && (exists id :: IsRecord(record, q.scope, id))
    && (exists h :: Has(record, "hostname", Str(h)) && IsHostname(h) && '.' !in h)
    && (Lacks(record, "ipv4") || exists a :: HasAddress(ip, record, a) && a.family == V4)
    && (Lacks(record, "ipv6") || exists a :: HasAddress(ip, record, a) && a.family == V6)
    && exists a :: PublishesAddress(ip, q, record, a)
  }

  /** A well-formed record without a hostname is refused with an error of its own. */
  ghost predicate LacksHostname(q: Request, record: Json) {
    && record.Obj? && (exists id :: IsRecord(record, q.scope, id))
    && forall h :: Has(record, "hostname", Str(h)) ==> h == ""
  }

  lemma LowerAppend(a: string, b: string)
    ensures Lower(a + "." + b) == Lower(a) + "." + Lower(b)
  {
  }

  lemma HasAddressIff(ip: IpText, record: Json, a: Ip)
    requires record.Obj?
    ensures HasAddress(ip, record, a) <==>
              (var identity := if a.family == V4 then Ipv4Identity(ip, Get(record, "ipv4"))
                               else Ipv6Identity(ip, Get(record, "ipv6"));
               identity.Some? && identity.value.address == a.value)
  {
    hide Ipv4Identity, Ipv6Identity, ReservesV4, ReservesV6;
    NullReservesNothing(ip);
    var identity := if a.family == V4 then Ipv4Identity(ip, Get(record, "ipv4"))
                    else Ipv6Identity(ip, Get(record, "ipv6"));
    forall key
      ensures Ipv4Identity(ip, Get(record, "ipv4")) == Some(Identity(a.value, key))
         <==> ReservesV4(ip, Get(record, "ipv4"), a.value, key)
      ensures Ipv6Identity(ip, Get(record, "ipv6")) == Some(Identity(a.value, key))
         <==> ReservesV6(ip, Get(record, "ipv6"), a.value, key)
    {
      Ipv4IdentityIff(ip, Get(record, "ipv4"), a.value, key);
      Ipv6IdentityIff(ip, Get(record, "ipv6"), a.value, key);
    }
    if identity.Some? {
      assert identity == Some(Identity(identity.value.address, identity.value.key));
    }
  }

  /** The addresses of a record, as the compiler finds them. */
  function FoundAddresses(ip: IpText, record: Json): (seq<Ip>, seq<Ip>)
    requires record.Obj?
  {
    (Present(V4, Ipv4Identity(ip, Get(record, "ipv4"))), Present(V6, Ipv6Identity(ip, Get(record, "ipv6"))))
  }

  lemma FoundIff(ip: IpText, q: Request, record: Json)
    requires record.Obj?
    ensures (var (v4, v6) := FoundAddresses(ip, record);
             && (forall a :: HasAddress(ip, record, a) <==> a in v4 || a in v6)
             && (forall a | a in v4 :: a.family == V4) && (forall a | a in v6 :: a.family == V6)
             && forall a :: a in PublishedAddresses(q, v4, v6) <==> PublishesAddress(ip, q, record, a))
  {
    hide Ipv4Identity, Ipv6Identity, HasAddress;
    var (v4, v6) := FoundAddresses(ip, record);
    forall a
      ensures HasAddress(ip, record, a) <==> a in v4 || a in v6
    {
      HasAddressIff(ip, record, a);
      assert a == Ip(a.family, a.value);
    }
    hide FoundAddresses;
    assert |v4| <= 1 && |v6| <= 1 by {
      FewAddresses(ip, record);
    }
    var forward := (if "A" in q.classes then v4 else []) + (if "AAAA" in q.classes then v6 else []);
    assert forall a :: a in forward <==> HasAddress(ip, record, a) && IsForward(q, a);
    assert forward == [] <==> forall a :: HasAddress(ip, record, a) ==> !IsForward(q, a) by {
      if forward != [] {
        assert forward[0] in forward;
      }
    }
  }

  lemma FewAddresses(ip: IpText, record: Json)
    requires record.Obj?
    ensures (var (v4, v6) := FoundAddresses(ip, record);
             && |v4| <= 1 && |v6| <= 1
             && (forall a | a in v4 :: a.family == V4) && (forall a | a in v6 :: a.family == V6))
  {
    hide Ipv4Identity, Ipv6Identity;
  }

  /**
   * A single record is published, refused for its missing hostname, or refused, exactly as
   * its fields say; a published one gives its handle, its name and those addresses.
   */
  lemma PublishIff(ip: IpText, q: Request, record: Json)
    ensures Publish(ip, q, record).Ok? <==> Passes(ip, q, record)
    ensures Publish(ip, q, record) == Err(PublicationHostnameMissing) <==> LacksHostname(q, record)
    ensures Publish(ip, q, record).Ok? ==>
              (var p := Publish(ip, q, record).value;
               && Has(record, "id", Str(p.id)) && NamesHost(q, record, p.name)
               && forall a :: a in p.addresses <==> PublishesAddress(ip, q, record, a))
  {
    hide Ipv4Identity, Ipv6Identity, HasAddress, PublishesAddress, PublishedAddresses, FoundAddresses;
    hide Lower, IsRecord;
    if record.Obj? {
      RecordIff(q, record);
      FoundIff(ip, q, record);
      PresentIff(ip, record);
      var hostname := Get(record, "hostname");
      if hostname.Str? {
        LowerAppend(hostname.s, q.namespace);
        assert hostname.s == "" ==> !IsHostname(hostname.s);
        assert Has(record, "hostname", Str(hostname.s));
      }
      hide IsHostname;
      HostnameIff(record);
      hide Has, Lacks;
      var (v4, v6) := FoundAddresses(ip, record);
      var addresses := PublishedAddresses(q, v4, v6);
      assert addresses == [] <==> forall a :: !PublishesAddress(ip, q, record, a) by {
        if addresses != [] {
          assert addresses[0] in addresses;
        }
      }
    }
  }

  lemma HostnameIff(record: Json)
    requires record.Obj?
    ensures (var hostname := Get(record, "hostname");
             && ((forall h :: Has(record, "hostname", Str(h)) ==> h == "") <==> !hostname.Str? || hostname.s == "")
             && (forall h :: Has(record, "hostname", Str(h)) <==> hostname == Str(h))
             && (hostname.Str? ==> "hostname" in record.fields && record.fields["hostname"] == hostname))
    ensures (var id := Get(record, "id"); forall x :: Has(record, "id", Str(x)) <==> id == Str(x))
  {
    var hostname := Get(record, "hostname");
    if hostname.Str? {
      assert Has(record, "hostname", Str(hostname.s));
    }
  }

  lemma RecordIff(q: Request, record: Json)
    requires record.Obj?
    ensures (exists id :: IsRecord(record, q.scope, id))
       <==> record.fields.Keys <= SCHEMA_FIELDS && Get(record, "scope") == Str(q.scope)
            && Get(record, "id").Str? && Get(record, "id").s != ""
  {
    assert SCHEMA_FIELDS == {"id", "scope", "ipv4", "ipv6", "hostname"};
    if Get(record, "id").Str? {
      assert record.fields.Keys <= SCHEMA_FIELDS && Get(record, "scope") == Str(q.scope) && Get(record, "id").s != ""
          ==> IsRecord(record, q.scope, Get(record, "id").s);
    }
  }

  lemma PresentIff(ip: IpText, record: Json)
    requires record.Obj?
    ensures FoundAddresses(ip, record)
         == (Present(V4, Ipv4Identity(ip, Get(record, "ipv4"))), Present(V6, Ipv6Identity(ip, Get(record, "ipv6"))))
    ensures (exists a :: HasAddress(ip, record, a) && a.family == V4) <==> Ipv4Identity(ip, Get(record, "ipv4")).Some?
    ensures (exists a :: HasAddress(ip, record, a) && a.family == V6) <==> Ipv6Identity(ip, Get(record, "ipv6")).Some?
    ensures Lacks(record, "ipv4") <==> Get(record, "ipv4") == Null
    ensures Lacks(record, "ipv6") <==> Get(record, "ipv6") == Null
  {
    hide Ipv4Identity, Ipv6Identity, HasAddress;
    forall a
      ensures HasAddress(ip, record, a) && a.family == V4 ==> Ipv4Identity(ip, Get(record, "ipv4")).Some?
      ensures HasAddress(ip, record, a) && a.family == V6 ==> Ipv6Identity(ip, Get(record, "ipv6")).Some?
    {
      HasAddressIff(ip, record, a);
    }
    if Ipv4Identity(ip, Get(record, "ipv4")).Some? {
      HasAddressIff(ip, record, Ip(V4, Ipv4Identity(ip, Get(record, "ipv4")).value.address));
    }
    if Ipv6Identity(ip, Get(record, "ipv6")).Some? {
      HasAddressIff(ip, record, Ip(V6, Ipv6Identity(ip, Get(record, "ipv6")).value.address));
    }
  }

  // ------------------------------------------------------------------ a list of records

  /** Some record of the list gives the address the name. */
  ghost predicate Gives(ip: IpText, q: Request, source: seq<Json>, n: Name, a: Ip) {
    exists r :: r in source && r.Obj? && NamesHost(q, r, n) && PublishesAddress(ip, q, r, a)
  }

  lemma GivenIsPublished(ip: IpText, q: Request, source: seq<Json>, n: Name, a: Ip)
    requires forall r | r in source :: Publish(ip, q, r).Ok?
    ensures Gives(ip, q, source, n, a)
       <==> exists p :: Published(ip, q, source, |source|, p) && p.name == n && a in p.addresses
  {
    hide Publish, NamesHost, PublishesAddress, Has, Passes;
    assert source[..|source|] == source;
    if r :| r in source && r.Obj? && NamesHost(q, r, n) && PublishesAddress(ip, q, r, a) {
      PublishIff(ip, q, r);
      OneName(q, r, n, Publish(ip, q, r).value.name);
      assert Published(ip, q, source, |source|, Publish(ip, q, r).value);
    }
    if p :| Published(ip, q, source, |source|, p) && p.name == n && a in p.addresses {
      var r :| r in source && Publish(ip, q, r) == Ok(p);
      PublishIff(ip, q, r);
      PassesIsObject(ip, q, r);
    }
  }

  lemma OneName(q: Request, r: Json, n: Name, n': Name)
    requires r.Obj? && NamesHost(q, r, n) && NamesHost(q, r, n')
    ensures n == n'
  {
  }

  lemma PassesIsObject(ip: IpText, q: Request, r: Json)
    ensures Passes(ip, q, r) ==> r.Obj?
  {
  }

  /**
   * The lines exist exactly for an accepted request with records, all of which pass and
   * none of which gives an address a second name.
   */
  lemma AcceptedIff(ip: IpText, q: Request, source: seq<Json>)
    ensures Outcome(ip, q, source).Some? <==>
              && ValidRequest(q) && source != [] && (forall r | r in source :: Passes(ip, q, r))
              && OneNameEach(ip, q, source)
  {
    hide Publish, Gives, Published, Passes, ValidRequest, Lines, Scan;
    ScanMeaning(ip, q, source, |source|);
    assert source[..|source|] == source;
    forall r
      ensures Publish(ip, q, r).Ok? <==> Passes(ip, q, r)
    {
      PublishIff(ip, q, r);
    }
    if forall r | r in source :: Passes(ip, q, r) {
      OneNameIff(ip, q, source);
    }
    hide NoConflict;
  }

  ghost predicate OneNameEach(ip: IpText, q: Request, source: seq<Json>) {
    forall n, n', a | Gives(ip, q, source, n, a) && Gives(ip, q, source, n', a) :: n == n'
  }

  lemma OneNameIff(ip: IpText, q: Request, source: seq<Json>)
    requires forall r | r in source :: Publish(ip, q, r).Ok?
    ensures NoConflict(ip, q, source, |source|) <==> OneNameEach(ip, q, source)
  {
    hide Publish, Gives, Published;
    forall n, a
      ensures Gives(ip, q, source, n, a)
         <==> exists p :: Published(ip, q, source, |source|, p) && p.name == n && a in p.addresses
    {
      GivenIsPublished(ip, q, source, n, a);
    }
    if OneNameEach(ip, q, source) {
      forall p, p', a | Published(ip, q, source, |source|, p) && Published(ip, q, source, |source|, p')
                        && a in p.addresses && a in p'.addresses
        ensures p.name == p'.name
      {
        assert Gives(ip, q, source, p.name, a) && Gives(ip, q, source, p'.name, a);
      }
    }
  }

  /**
   * The forward lines are exactly the pairs of a record's name and its address of a class
   * that was asked for; the pointers, if asked for, are those of all published addresses.
   */
  lemma LinesIff(ip: IpText, q: Request, source: seq<Json>, n: Name, a: Ip)
    requires Outcome(ip, q, source).Some?
    ensures (var lines := Outcome(ip, q, source).value.0;
             && (Data(n, a) in lines <==>
                   && IsForward(q, a)
                   && exists r :: r in source && r.Obj? && NamesHost(q, r, n) && HasAddress(ip, r, a))
             && (Pointer(a, n) in lines <==> "PTR" in q.classes && Gives(ip, q, source, n, a)))
  {
    hide Publish, Outcome, Published, Passes, ValidRequest, Scan, NamesHost, HasAddress;
    LinesMeaning(ip, q, source);
    AcceptedIff(ip, q, source);
    forall r | r in source
      ensures Publish(ip, q, r).Ok?
    {
      PublishIff(ip, q, r);
    }
    GivenIsPublished(ip, q, source, n, a);
  }

  // ------------------------------------------------------------- the texts of the fields

  /** A hardware address: colons at five places, hex digits at the other twelve. */
  lemma MacIff(text: string)
    ensures IsMac(text) <==>
              && |text| == 17
              && (forall i | i in {2, 5, 8, 11, 14} :: text[i] == ':')
              && (forall i | 0 <= i < 17 && i !in {2, 5, 8, 11, 14} :: IsHex(text[i]))
  {
  }

  /** A hostname starts with a letter or digit and has only those, dots, underscores and hyphens. */
  lemma HostnameTextIff(text: string)
    ensures IsHostname(text) <==>
              && |text| > 0 && IsAlnum(text[0])
              && forall c | c in text :: IsAlnum(c) || c == '.' || c == '_' || c == '-'
  {
  }

  predicate IsLabel(text: string) {
    && |text| > 0 && IsAlnum(text[0])
    && forall c | c in text :: IsAlnum(c) || c == '_' || c == '-'
  }

  function Dotted(labels: seq<string>): string {
    if labels == [] then "" else labels[0] + "." + Dotted(labels[1..])
  }

  /** The rest of a label without its start: any of the characters. */
  predicate IsTail(text: string) {
    forall c | c in text :: IsAlnum(c) || c == '_' || c == '-'
  }

  /** A namespace is a list of labels, each followed by a dot. */
  lemma {:induction false} NamespaceIff(text: string) returns (labels: seq<string>)
    ensures NamespaceRest(text, false) ==> text == Dotted(labels) && forall l | l in labels :: IsLabel(l)
    ensures (exists ls :: text == Dotted(ls) && forall l | l in ls :: IsLabel(l)) ==> NamespaceRest(text, false)
  {
    labels := [];
    if NamespaceRest(text, false) {
      labels := LabelsOf(text);
    }
    if ls :| text == Dotted(ls) && forall l | l in ls :: IsLabel(l) {
      DottedIsNamespace(ls);
    }
  }

  lemma {:induction false} LabelsOf(text: string) returns (labels: seq<string>)
    requires NamespaceRest(text, false)
    ensures text == Dotted(labels) && forall l | l in labels :: IsLabel(l)
    decreases |text|
  {
    if text == "" {
      labels := [];
    } else {
      var tail, rest := TailOf(text[1..]);
      var first := [text[0]] + tail;
      var others := LabelsOf(rest);
      labels := [first] + others;
      assert text == [text[0]] + text[1..] && text == first + "." + rest;
      assert labels[1..] == others;
    }
  }

  lemma {:induction false} TailOf(text: string) returns (tail: string, rest: string)
    requires NamespaceRest(text, true)
    ensures text == tail + "." + rest && IsTail(tail) && NamespaceRest(rest, false)
    decreases |text|
  {
    assert text == [text[0]] + text[1..];
    if text[0] == '.' {
      tail, rest := "", text[1..];
    } else {
      tail, rest := TailOf(text[1..]);
      tail := [text[0]] + tail;
    }
  }

  lemma {:induction false} DottedIsNamespace(labels: seq<string>)
    requires forall l | l in labels :: IsLabel(l)
    ensures NamespaceRest(Dotted(labels), false)
  {
    if labels != [] {
      var (first, rest) := (labels[0], Dotted(labels[1..]));
      assert first in labels && forall l | l in labels[1..] :: l in labels;
      DottedIsNamespace(labels[1..]);
      var text := first + "." + rest;
      assert text[1..] == first[1..] + "." + rest;
      assert forall c | c in first[1..] :: c in first;
      TailContinues(first[1..], rest);
    }
  }

  lemma {:induction false} TailContinues(tail: string, rest: string)
    requires IsTail(tail) && NamespaceRest(rest, false)
    ensures NamespaceRest(tail + "." + rest, true)
  {
    var text := tail + "." + rest;
    if tail == "" {
      assert text[0] == '.' && text[1..] == rest;
    } else {
      assert tail[0] in tail && forall c | c in tail[1..] :: c in tail;
      assert text[0] == tail[0] && text[1..] == tail[1..] + "." + rest;
      TailContinues(tail[1..], rest);
    }
  }

  /** The handles of an accepted list are those of its records. */
  lemma HandlesIff(ip: IpText, q: Request, source: seq<Json>, id: string)
    requires Outcome(ip, q, source).Some?
    ensures id in Outcome(ip, q, source).value.1 <==> exists r :: r in source && r.Obj? && Has(r, "id", Str(id))
  {
    hide Publish, Passes, ValidRequest, Scan, Lines, Has;
    ScanMeaning(ip, q, source, |source|);
    AcceptedIff(ip, q, source);
    assert source[..|source|] == source;
    if p :| Published(ip, q, source, |source|, p) && p.id == id {
      var r :| r in source && Publish(ip, q, r) == Ok(p);
      PublishIff(ip, q, r);
      PassesIsObject(ip, q, r);
    }
    if r :| r in source && r.Obj? && Has(r, "id", Str(id)) {
      PublishIff(ip, q, r);
      var p := Publish(ip, q, r).value;
      OneHandle(r, id, p.id);
      assert Published(ip, q, source, |source|, p);
    }
  }

  lemma OneHandle(r: Json, id: string, id': string)
    requires r.Obj? && Has(r, "id", Str(id)) && Has(r, "id", Str(id'))
    ensures id == id'
  {
  }

  /** What a reservation becomes in the configuration: its identity, the text of its address, its hostname. */
  lemma EntriesAre(ip: IpText, f: Family, rs: seq<Reservation>, i: nat)
    requires IsIpText(ip) && i < |rs| && rs[i].identity.address < Pow2(Width(f))
    ensures |EntriesOf(ip, f, rs)| == |rs|
    ensures (var e := EntriesOf(ip, f, rs)[i];
             && e.key == rs[i].identity.key && e.hostname == rs[i].hostname
             && ip.parse(f, e.address) == Some(rs[i].identity.address))
  {
  }

  /** An accepted request: a scope, a namespace of at least one label, and distinct known classes. */
  lemma RequestIff(q: Request, labels: seq<string>)
    requires q.namespace == Dotted(labels) && forall l | l in labels :: IsLabel(l)
    ensures ValidRequest(q) <==>
              && q.scope != "" && labels != [] && q.classes != []
              && (forall i | 0 <= i < |q.classes| :: q.classes[i] in {"A", "AAAA", "PTR"})
              && (forall i, j | 0 <= i < |q.classes| && 0 <= j < |q.classes| && q.classes[i] == q.classes[j] :: i == j)
  {
    DottedIsNamespace(labels);
    assert labels != [] ==> |q.namespace| == |labels[0]| + 1 + |Dotted(labels[1..])|;
    hide NamespaceRest, IsLabel, Dotted;
    assert (forall c | c in q.classes :: c in {"A", "AAAA", "PTR"})
      <==> (forall i | 0 <= i < |q.classes| :: q.classes[i] in {"A", "AAAA", "PTR"}) by {
      assert forall i | 0 <= i < |q.classes| :: q.classes[i] in q.classes;
    }
  }

  /** A request whose namespace is no such list of labels is refused. */
  lemma NamespaceNeeded(q: Request) returns (labels: seq<string>)
    requires ValidRequest(q)
    ensures q.namespace == Dotted(labels) && forall l | l in labels :: IsLabel(l)
  {
    labels := NamespaceIff(q.namespace);
  }

  /** A text of hex digits is read in base sixteen, the first digit counting most. */
  lemma {:induction false} HexValueIs(text: string)
    requires AllHex(text) && text != ""
    ensures HexValue(text) == HexDigit(text[0]) * Pow2(4 * (|text| - 1)) + HexValue(text[1..])
    decreases |text|
  {
    hide HexDigit, IsHex;
    if |text| == 1 {
      assert text[..0] == "" && text[1..] == "";
    } else {
      var (init, tail, n) := (text[..|text| - 1], text[1..], |text| - 2);
      HexValueIs(init);
      assert init[1..] == tail[..|tail| - 1] && tail[|tail| - 1] == text[|text| - 1] && init[0] == text[0];
      Pow2Sum(4, 4 * n);
      assert Pow2(4) == 16;
      hide Pow2, AllHex;
      Distribute(HexDigit(text[0]), Pow2(4 * n));
    }
  }

  lemma Distribute(d: nat, p: nat)
    ensures 16 * (d * p) == d * (16 * p)
  {
  }
}
