/**
 * Local DNS data for protected reservations: `materialize_dns_lines` of
 * docker-clab-frr-plus-tooling/protected-reservation-materializer.py.  Records are
 * folded into names and address owners with conflict detection; the lines are then
 * written in sorted order.
 */
module ReservationDns {
  import opened Common
  import opened Sorting
  import opened Text
  import opened Addressing
  import opened Reservations

  datatype Request = Request(scope: string, namespace: string, classes: seq<string>)

  /** Labels of letters, digits, hyphens and underscores, each followed by a dot. */
  predicate NamespaceRest(text: string, inside: bool) {
    if text == "" then !inside
    else if !inside then IsAlnum(text[0]) && NamespaceRest(text[1..], true)
    else if text[0] == '.' then NamespaceRest(text[1..], false)
    else (IsAlnum(text[0]) || text[0] in {'_', '-'}) && NamespaceRest(text[1..], true)
  }

  predicate ValidRequest(q: Request) {
    && q.scope != "" && q.namespace != "" && NamespaceRest(q.namespace, false)
    && q.classes != [] && (forall c | c in q.classes :: c in {"A", "AAAA", "PTR"})
    && (forall i, j | 0 <= i < j < |q.classes| :: q.classes[i] != q.classes[j])
  }

  // ------------------------------------------------------------------------ one record

  /** What a record publishes: a handle, a lower-cased name and at least one address. */
  datatype Publication = Publication(id: string, name: Name, addresses: seq<Ip>)

  function Present(f: Family, identity: Option<Identity>): seq<Ip> {
    if identity.None? then [] else [Ip(f, identity.value.address)]
  }

  /** Addresses of the requested classes; a request for PTR alone falls back to all of them. */
  function PublishedAddresses(q: Request, v4: seq<Ip>, v6: seq<Ip>): seq<Ip> {
    var forward := (if "A" in q.classes then v4 else []) + (if "AAAA" in q.classes then v6 else []);
    if "PTR" in q.classes && forward == [] then v4 + v6 else forward
  }

  function Publish(ip: IpText, q: Request, record: Json): Result<Publication, ReservationError> {
    if !record.Obj? || !(record.fields.Keys <= SCHEMA_FIELDS) || Get(record, "scope") != Str(q.scope) then
      Err(ContractViolation)
    else if !Get(record, "id").Str? || Get(record, "id").s == "" then Err(ContractViolation)
    else
      var hostname := Get(record, "hostname");
      if !hostname.Str? || hostname.s == "" then Err(PublicationHostnameMissing)
      else if !IsHostname(hostname.s) || '.' in hostname.s then Err(ContractViolation)
      else
        var (j4, j6) := (Get(record, "ipv4"), Get(record, "ipv6"));
        var (v4, v6) := (Ipv4Identity(ip, j4), Ipv6Identity(ip, j6));
        if (j4 != Null && v4.None?) || (j6 != Null && v6.None?) then Err(ContractViolation)
        else
          var addresses := PublishedAddresses(q, Present(V4, v4), Present(V6, v6));
          if addresses == [] then Err(ContractViolation)
          else Ok(Publication(Get(record, "id").s, Name(Lower(hostname.s + "." + q.namespace)), addresses))
  }

  // ------------------------------------------------------------------------ the fold

  datatype Book = Book(byName: map<Name, set<Ip>>, owners: map<Ip, Name>, ids: set<string>)

  const EMPTY_BOOK := Book(map[], map[], {})

  predicate Conflicts(book: Book, p: Publication) {
    exists a | a in p.addresses :: a in book.owners && book.owners[a] != p.name
  }

  function AddressSet(addresses: seq<Ip>): set<Ip> {
    set a | a in addresses
  }

  function WithOwner(owners: map<Ip, Name>, addresses: set<Ip>, name: Name): map<Ip, Name> {
    owners + (map a | a in addresses :: name)
  }

  function WithAddresses(byName: map<Name, set<Ip>>, name: Name, addresses: set<Ip>): map<Name, set<Ip>> {
    byName[name := (if name in byName then byName[name] else {}) + addresses]
  }

  function Enter(book: Book, p: Publication): Book {
    var addresses := AddressSet(p.addresses);
    Book(WithAddresses(book.byName, p.name, addresses), WithOwner(book.owners, addresses, p.name), book.ids + {p.id})
  }

  /** The book after the first `count` records, or the error of the first record that stops the scan. */
  function Scan(ip: IpText, q: Request, source: seq<Json>, count: nat): Result<Book, ReservationError>
    requires count <= |source|
  {
    if count == 0 then Ok(EMPTY_BOOK)
    else
      var before := Scan(ip, q, source, count - 1);
      if before.Err? then before
      else
        match Publish(ip, q, source[count - 1])
        case Err(e) => Err(e)
        case Ok(p) => if Conflicts(before.value, p) then Err(ContractViolation) else Ok(Enter(before.value, p))
  }

  // ------------------------------------------------------------------------ the lines

  /** The "server:" line, forward data, and reverse data. */
  datatype Line = Server | Data(name: Name, address: Ip) | Pointer(address: Ip, name: Name)

  function ClassOf(f: Family): string {
    if f == V4 then "A" else "AAAA"
  }

  function AddressLines(q: Request, name: Name, f: Family, values: seq<nat>): seq<Line> {
    if values == [] then []
    else
      AddressLines(q, name, f, values[..|values| - 1])
      + (if ClassOf(f) in q.classes then [Data(name, Ip(f, values[|values| - 1]))] else [])
      + (if "PTR" in q.classes then [Pointer(Ip(f, values[|values| - 1]), name)] else [])
  }

  predicate NatLe(a: nat, b: nat) { a <= b }

  function SortedValues(addresses: set<Ip>, f: Family): (r: seq<nat>)
    ensures forall v :: v in r <==> Ip(f, v) in addresses
    ensures StrictlySorted(NatLe, r)
  {
    SortSet(set a | a in addresses && a.family == f :: a.value, NatLe)
  }

  function NameLines(q: Request, name: Name, addresses: set<Ip>): seq<Line> {
    AddressLines(q, name, V4, SortedValues(addresses, V4)) + AddressLines(q, name, V6, SortedValues(addresses, V6))
  }

  function LinesOf(q: Request, byName: map<Name, set<Ip>>, names: seq<Name>, count: nat): seq<Line>
    requires count <= |names| && forall n | n in names :: n in byName
  {
    if count == 0 then []
    else LinesOf(q, byName, names, count - 1) + NameLines(q, names[count - 1], byName[names[count - 1]])
  }

  function Lines(q: Request, byName: map<Name, set<Ip>>): seq<Line> {
    var names := SortedNames(byName.Keys);
    [Server] + LinesOf(q, byName, names, |names|)
  }

  method MaterializeDnsLines(ip: IpText, q: Request, source: seq<Json>)
      returns (r: Result<(seq<Line>, set<string>), ReservationError>)
    ensures !ValidRequest(q) || source == [] ==> r == Err(ContractViolation)
    ensures ValidRequest(q) && source != [] ==>
              r == match Scan(ip, q, source, |source|)
                   case Err(e) => Err(e)
                   case Ok(book) => Ok((Lines(q, book.byName), book.ids))
    ensures Outcome(ip, q, source) == if r.Ok? then Some(r.value) else None
    ensures Diagnostic(ip, q, source) == if r.Err? then Some(r.error) else None
  {
    if !ValidRequest(q) || source == [] {
      return Err(ContractViolation);
    }
    var byName: map<Name, set<Ip>> := map[];
    var owners: map<Ip, Name> := map[];
    var ids: set<string> := {};
    hide Publish, Conflicts, Enter, ValidRequest;
    for i := 0 to |source|
      invariant Scan(ip, q, source, i) == Ok(Book(byName, owners, ids))
    {
      var published := Publish(ip, q, source[i]);
      if published.Err? {
        ErrorStays(ip, q, source, i + 1, |source|);
        return Err(published.error);
      }
      var entered := EnterPublication(byName, owners, ids, published.value);
      if entered.None? {
        ErrorStays(ip, q, source, i + 1, |source|);
        return Err(ContractViolation);
      }
      byName, owners, ids := entered.value.byName, entered.value.owners, entered.value.ids;
    }
    var lines := WriteLines(q, byName);
    return Ok((lines, ids));
  }

  /** The loop over the addresses of one record: each must be unowned or owned by the same name. */
  method EnterPublication(byName0: map<Name, set<Ip>>, owners0: map<Ip, Name>, ids0: set<string>, p: Publication)
      returns (r: Option<Book>)
    ensures var book := Book(byName0, owners0, ids0); r == if Conflicts(book, p) then None else Some(Enter(book, p))
  {
    var owners, ids := owners0, ids0 + {p.id};
    var byName := byName0[p.name := if p.name in byName0 then byName0[p.name] else {}];
    NothingEntered(byName0, owners0, p);
    hide WithOwner, WithAddresses, AddressSet;
    for j := 0 to |p.addresses|
      invariant forall a | a in p.addresses[..j] :: a in owners0 ==> owners0[a] == p.name
      invariant owners == WithOwner(owners0, AddressSet(p.addresses[..j]), p.name)
      invariant byName == WithAddresses(byName0, p.name, AddressSet(p.addresses[..j]))
    {
      var a := p.addresses[j];
      AddressSetStep(p, j);
      AddressEntered(byName0, owners0, p.name, AddressSet(p.addresses[..j]), a);
      if a in owners && owners[a] != p.name {
        return None;
      }
      owners := owners[a := p.name];
      byName := byName[p.name := byName[p.name] + {a}];
    }
    assert p.addresses[..|p.addresses|] == p.addresses;
    return Some(Book(byName, owners, ids));
  }

  lemma NothingEntered(byName: map<Name, set<Ip>>, owners: map<Ip, Name>, p: Publication)
    ensures WithOwner(owners, AddressSet(p.addresses[..0]), p.name) == owners
    ensures WithAddresses(byName, p.name, AddressSet(p.addresses[..0]))
         == byName[p.name := if p.name in byName then byName[p.name] else {}]
  {
    var known := if p.name in byName then byName[p.name] else {};
    assert AddressSet(p.addresses[..0]) == {} && known + {} == known;
  }

  lemma AddressSetStep(p: Publication, j: nat)
    requires j < |p.addresses|
    ensures p.addresses[..j + 1] == p.addresses[..j] + [p.addresses[j]]
    ensures AddressSet(p.addresses[..j + 1]) == AddressSet(p.addresses[..j]) + {p.addresses[j]}
    ensures p.addresses[j] in AddressSet(p.addresses[..j]) <==> p.addresses[j] in p.addresses[..j]
  {
    assert p.addresses[..j + 1] == p.addresses[..j] + [p.addresses[j]];
  }

  lemma AddressEntered(byName: map<Name, set<Ip>>, owners: map<Ip, Name>, name: Name, s: set<Ip>, a: Ip)
    ensures a in WithOwner(owners, s, name) && WithOwner(owners, s, name)[a] != name
       <==> a !in s && a in owners && owners[a] != name
    ensures WithOwner(owners, s + {a}, name) == WithOwner(owners, s, name)[a := name]
    ensures name in WithAddresses(byName, name, s)
    ensures WithAddresses(byName, name, s + {a})
         == WithAddresses(byName, name, s)[name := WithAddresses(byName, name, s)[name] + {a}]
  {
    var known := if name in byName then byName[name] else {};
    assert known + (s + {a}) == (known + s) + {a};
  }

  lemma {:induction false} ErrorStays(ip: IpText, q: Request, source: seq<Json>, i: nat, j: nat)
    requires i <= j <= |source| && Scan(ip, q, source, i).Err?
    ensures Scan(ip, q, source, j) == Scan(ip, q, source, i)
    decreases j
  {
    hide Publish, Conflicts, Enter;
    if i < j {
      ErrorStays(ip, q, source, i, j - 1);
    }
  }

  method WriteLines(q: Request, byName: map<Name, set<Ip>>) returns (lines: seq<Line>)
    ensures lines == Lines(q, byName)
  {
    hide AddressLines, SortedValues, NameLines;
    var data: seq<Line> := [];
    var names := SortedNames(byName.Keys);
    for i := 0 to |names|
      invariant data == LinesOf(q, byName, names, i)
    {
      data := WriteName(q, names[i], byName[names[i]], data);
    }
    return [Server] + data;
  }

  method WriteName(q: Request, name: Name, addresses: set<Ip>, lines0: seq<Line>) returns (lines: seq<Line>)
    ensures lines == lines0 + NameLines(q, name, addresses)
  {
    lines := WriteFamily(q, name, V4, SortedValues(addresses, V4), lines0);
    lines := WriteFamily(q, name, V6, SortedValues(addresses, V6), lines);
  }

  method WriteFamily(q: Request, name: Name, f: Family, values: seq<nat>, lines0: seq<Line>) returns (lines: seq<Line>)
    ensures lines == lines0 + AddressLines(q, name, f, values)
  {
    lines := lines0;
    for i := 0 to |values|
      invariant lines == lines0 + AddressLines(q, name, f, values[..i])
    {
      assert values[..i + 1][..i] == values[..i];
      if ClassOf(f) in q.classes {
        lines := lines + [Data(name, Ip(f, values[i]))];
      }
      if "PTR" in q.classes {
        lines := lines + [Pointer(Ip(f, values[i]), name)];
      }
    }
    assert values[..|values|] == values;
  }

  // ---------------------------------------------------- what the scan accepts and keeps

  /** Record `r` is among the first `count` and publishes `p`. */
  ghost predicate Published(ip: IpText, q: Request, source: seq<Json>, count: nat, p: Publication)
    requires count <= |source|
  {
    exists r | r in source[..count] :: Publish(ip, q, r) == Ok(p)
  }

  ghost predicate AllPublish(ip: IpText, q: Request, source: seq<Json>, count: nat)
    requires count <= |source|
  {
    forall r | r in source[..count] :: Publish(ip, q, r).Ok?
  }

  /** No address is published under two names. */
  ghost predicate NoConflict(ip: IpText, q: Request, source: seq<Json>, count: nat)
    requires count <= |source|
  {
    forall p, p', a | Published(ip, q, source, count, p) && Published(ip, q, source, count, p')
                      && a in p.addresses && a in p'.addresses :: p.name == p'.name
  }

  /** The book records exactly what has been published. */
  ghost predicate Records(ip: IpText, q: Request, source: seq<Json>, count: nat, book: Book)
    requires count <= |source|
  {
    && (forall id :: id in book.ids <==> exists p :: Published(ip, q, source, count, p) && p.id == id)
    && (forall n :: n in book.byName <==> exists p :: Published(ip, q, source, count, p) && p.name == n)
    && (forall n, a :: n in book.byName ==>
          (a in book.byName[n] <==> exists p :: Published(ip, q, source, count, p) && p.name == n && a in p.addresses))
    && (forall a :: a in book.owners <==> exists p :: Published(ip, q, source, count, p) && a in p.addresses)
    && (forall p, a :: Published(ip, q, source, count, p) && a in p.addresses ==>
          a in book.owners && book.owners[a] == p.name)
  }

  lemma PublishedStep(ip: IpText, q: Request, source: seq<Json>, count: nat)
    requires count < |source|
    ensures forall p :: Published(ip, q, source, count + 1, p) <==>
              Published(ip, q, source, count, p) || Publish(ip, q, source[count]) == Ok(p)
    ensures AllPublish(ip, q, source, count + 1) <==>
              AllPublish(ip, q, source, count) && Publish(ip, q, source[count]).Ok?
  {
    hide Publish;
    assert source[..count + 1] == source[..count] + [source[count]];
  }

  /**
   * The scan accepts exactly the sources whose records all publish something and in
   * which no address goes by two names; the book then holds exactly what was published.
   */
  lemma {:induction false} ScanMeaning(ip: IpText, q: Request, source: seq<Json>, count: nat)
    requires count <= |source|
    ensures Scan(ip, q, source, count).Ok? <==> AllPublish(ip, q, source, count) && NoConflict(ip, q, source, count)
    ensures Scan(ip, q, source, count).Ok? ==> Records(ip, q, source, count, Scan(ip, q, source, count).value)
    decreases count
  {
    hide Publish, AllPublish, Published, Records, Conflicts, Enter, NoConflict;
    if count == 0 {
      NothingScanned(ip, q, source);
    } else {
      ScanMeaning(ip, q, source, count - 1);
      PublishedStep(ip, q, source, count - 1);
      var before, last := Scan(ip, q, source, count - 1), Publish(ip, q, source[count - 1]);
      if before.Err? {
        ConflictStays(ip, q, source, count);
      } else if last.Ok? {
        assert forall x :: Publish(ip, q, source[count - 1]) == Ok(x) <==> x == last.value;
        EnterMeaning(ip, q, source, count, before.value, last.value);
      }
    }
  }

  lemma NothingScanned(ip: IpText, q: Request, source: seq<Json>)
    ensures AllPublish(ip, q, source, 0) && NoConflict(ip, q, source, 0) && Records(ip, q, source, 0, EMPTY_BOOK)
  {
    hide Publish;
    assert forall p :: !Published(ip, q, source, 0, p);
  }

  lemma ConflictStays(ip: IpText, q: Request, source: seq<Json>, count: nat)
    requires 0 < count <= |source|
    requires forall p :: Published(ip, q, source, count - 1, p) ==> Published(ip, q, source, count, p)
    ensures NoConflict(ip, q, source, count) ==> NoConflict(ip, q, source, count - 1)
  {
    hide Published;
  }

  lemma EnterMeaning(ip: IpText, q: Request, source: seq<Json>, count: nat, book: Book, p: Publication)
    requires 0 < count <= |source|
    requires Records(ip, q, source, count - 1, book) && NoConflict(ip, q, source, count - 1)
    requires forall x :: Published(ip, q, source, count, x) <==> Published(ip, q, source, count - 1, x) || x == p
    ensures NoConflict(ip, q, source, count) <==> !Conflicts(book, p)
    ensures !Conflicts(book, p) ==> Records(ip, q, source, count, Enter(book, p))
  {
    hide Published, Enter;
    if Conflicts(book, p) {
      ConflictIsSeen(ip, q, source, count, book, p);
    } else {
      NoConflictStays(ip, q, source, count, book, p);
      EnterKeepsNames(ip, q, source, count, book, p);
      EnterKeepsOwners(ip, q, source, count, book, p);
      hide NoConflict, Conflicts;
    }
  }

  lemma ConflictIsSeen(ip: IpText, q: Request, source: seq<Json>, count: nat, book: Book, p: Publication)
    requires 0 < count <= |source| && Records(ip, q, source, count - 1, book) && Conflicts(book, p)
    requires forall x :: Published(ip, q, source, count, x) <==> Published(ip, q, source, count - 1, x) || x == p
    ensures !NoConflict(ip, q, source, count)
  {
    hide Published;
    var a :| a in p.addresses && a in book.owners && book.owners[a] != p.name;
    var x :| Published(ip, q, source, count - 1, x) && a in x.addresses;
    assert Published(ip, q, source, count, x) && Published(ip, q, source, count, p);
  }

  lemma NoConflictStays(ip: IpText, q: Request, source: seq<Json>, count: nat, book: Book, p: Publication)
    requires 0 < count <= |source| && Records(ip, q, source, count - 1, book) && !Conflicts(book, p)
    requires NoConflict(ip, q, source, count - 1)
    requires forall x :: Published(ip, q, source, count, x) <==> Published(ip, q, source, count - 1, x) || x == p
    ensures NoConflict(ip, q, source, count)
  {
    hide Published;
    forall x, y, a | Published(ip, q, source, count, x) && Published(ip, q, source, count, y) && a in x.addresses
        && a in y.addresses
      ensures x.name == y.name
    {
    }
  }

  lemma EnterKeepsOwners(ip: IpText, q: Request, source: seq<Json>, count: nat, book: Book, p: Publication)
    requires 0 < count <= |source| && Records(ip, q, source, count - 1, book) && !Conflicts(book, p)
    requires forall x :: Published(ip, q, source, count, x) <==> Published(ip, q, source, count - 1, x) || x == p
    ensures var after := Enter(book, p);
            forall x, a :: Published(ip, q, source, count, x) && a in x.addresses ==>
              a in after.owners && after.owners[a] == x.name
  {
    hide Published;
  }

  lemma EnterKeepsNames(ip: IpText, q: Request, source: seq<Json>, count: nat, book: Book, p: Publication)
    requires 0 < count <= |source| && Records(ip, q, source, count - 1, book)
    requires forall x :: Published(ip, q, source, count, x) <==> Published(ip, q, source, count - 1, x) || x == p
    ensures var after := Enter(book, p);
            && (forall id :: id in after.ids <==> exists x :: Published(ip, q, source, count, x) && x.id == id)
            && (forall n :: n in after.byName <==> exists x :: Published(ip, q, source, count, x) && x.name == n)
            && (forall n, a :: n in after.byName ==>
                  (a in after.byName[n]
                   <==> exists x :: Published(ip, q, source, count, x) && x.name == n && a in x.addresses))
            && (forall a :: a in after.owners <==> exists x :: Published(ip, q, source, count, x) && a in x.addresses)
  {
    hide Published;
    var after := Enter(book, p);
    assert Published(ip, q, source, count, p);
    forall n, a | n in after.byName
      ensures a in after.byName[n]
              <==> exists x :: Published(ip, q, source, count, x) && x.name == n && a in x.addresses
    {
      if a in after.byName[n] && !(n == p.name && a in p.addresses) {
        assert n in book.byName && a in book.byName[n];
        var x :| Published(ip, q, source, count - 1, x) && x.name == n && a in x.addresses;
        assert Published(ip, q, source, count, x);
      }
      if x :| Published(ip, q, source, count, x) && x.name == n && a in x.addresses && x != p {
        assert Published(ip, q, source, count - 1, x);
      }
    }
  }

  // ---------------------------------------------------------------- order of the source

  function Outcome(ip: IpText, q: Request, source: seq<Json>): Option<(seq<Line>, set<string>)> {
    if !ValidRequest(q) || source == [] then None
    else
      match Scan(ip, q, source, |source|)
      case Err(_) => None
      case Ok(book) => Some((Lines(q, book.byName), book.ids))
  }

  lemma SameRecordsSamePublications(ip: IpText, q: Request, a: seq<Json>, b: seq<Json>)
    requires forall r :: r in a <==> r in b
    ensures forall p :: Published(ip, q, a, |a|, p) <==> Published(ip, q, b, |b|, p)
    ensures AllPublish(ip, q, a, |a|) <==> AllPublish(ip, q, b, |b|)
  {
    hide Publish;
    assert a[..|a|] == a && b[..|b|] == b;
  }

  /**
   * Acceptance, the lines and the handles depend only on which records the source
   * holds: not on their order, and not on repetitions.
   */
  lemma OrderDoesNotMatter(ip: IpText, q: Request, a: seq<Json>, b: seq<Json>)
    requires forall r :: r in a <==> r in b
    ensures Outcome(ip, q, a) == Outcome(ip, q, b)
  {
    assert a == [] <==> b == [] by {
      if a != [] { assert a[0] in b; }
      if b != [] { assert b[0] in a; }
    }
    ScanMeaning(ip, q, a, |a|);
    ScanMeaning(ip, q, b, |b|);
    SameRecordsSamePublications(ip, q, a, b);
    hide Published, AllPublish, Scan, ValidRequest;
    assert NoConflict(ip, q, a, |a|) <==> NoConflict(ip, q, b, |b|);
    if Scan(ip, q, a, |a|).Ok? {
      SameBooks(ip, q, a, b, Scan(ip, q, a, |a|).value, Scan(ip, q, b, |b|).value);
    }
  }

  lemma SameBooks(ip: IpText, q: Request, a: seq<Json>, b: seq<Json>, x: Book, y: Book)
    requires Records(ip, q, a, |a|, x) && Records(ip, q, b, |b|, y)
    requires forall p :: Published(ip, q, a, |a|, p) <==> Published(ip, q, b, |b|, p)
    ensures x.byName == y.byName && x.ids == y.ids
  {
    hide Published;
    assert forall n :: n in x.byName <==> n in y.byName;
    forall n | n in x.byName
      ensures x.byName[n] == y.byName[n]
    {
      assert forall v :: v in x.byName[n] <==> v in y.byName[n];
    }
    assert forall id :: id in x.ids <==> id in y.ids;
  }

  /** In particular every permutation of the records gives the same result. */
  lemma PermutationInvariant(ip: IpText, q: Request, a: seq<Json>, b: seq<Json>)
    requires multiset(a) == multiset(b)
    ensures Outcome(ip, q, a) == Outcome(ip, q, b)
  {
    forall r
      ensures r in a <==> r in b
    {
      assert r in a <==> r in multiset(a);
      assert r in b <==> r in multiset(b);
    }
    OrderDoesNotMatter(ip, q, a, b);
  }

  // ------------------------------------------------------------ the order and the diagnostic

  /** The error with which a request or source is refused. */
  function Diagnostic(ip: IpText, q: Request, source: seq<Json>): Option<ReservationError> {
    if !ValidRequest(q) || source == [] then Some(ContractViolation)
    else
      match Scan(ip, q, source, |source|)
      case Err(e) => Some(e)
      case Ok(_) => None
  }

  ghost predicate Yields(ip: IpText, q: Request, source: seq<Json>, e: ReservationError) {
    exists r | r in source :: Publish(ip, q, r) == Err(e)
  }

  /** Some record is refused as a violation, or two publish one address under different names. */
  ghost predicate Violates(ip: IpText, q: Request, source: seq<Json>) {
    Yields(ip, q, source, ContractViolation) || !NoConflict(ip, q, source, |source|)
  }

  lemma PrefixPublishes(ip: IpText, q: Request, source: seq<Json>, count: nat)
    requires count <= |source|
    ensures forall p :: Published(ip, q, source, count, p) ==> Published(ip, q, source, |source|, p)
    ensures NoConflict(ip, q, source, |source|) ==> NoConflict(ip, q, source, count)
  {
    hide Publish;
    assert source[..|source|] == source;
    assert forall r | r in source[..count] :: r in source;
    hide Published;
  }

  /** Where an error comes from. */
  lemma {:induction false} ScanErrorCause(ip: IpText, q: Request, source: seq<Json>, count: nat)
    requires count <= |source| && Scan(ip, q, source, count).Err?
    ensures Scan(ip, q, source, count) == Err(PublicationHostnameMissing) ==>
              Yields(ip, q, source, PublicationHostnameMissing)
    ensures Scan(ip, q, source, count) == Err(ContractViolation) ==> Violates(ip, q, source)
    decreases count
  {
    hide Publish, Conflicts, Enter, NoConflict;
    assert count > 0;
    var before, last := Scan(ip, q, source, count - 1), Publish(ip, q, source[count - 1]);
    if before.Err? {
      ScanErrorCause(ip, q, source, count - 1);
    } else if last.Err? {
      assert source[count - 1] in source;
    } else {
      ScanMeaning(ip, q, source, count - 1);
      ScanMeaning(ip, q, source, count);
      PublishedStep(ip, q, source, count - 1);
      PrefixPublishes(ip, q, source, count);
    }
  }

  /** A record in front that yields an error decides. */
  lemma FirstErrorDecides(ip: IpText, q: Request, first: Json, rest: seq<Json>, e: ReservationError)
    requires ValidRequest(q) && Publish(ip, q, first) == Err(e)
    ensures Diagnostic(ip, q, [first] + rest) == Some(e)
  {
    hide Publish, Conflicts, Enter, ValidRequest;
    var source := [first] + rest;
    assert Scan(ip, q, source, 0) == Ok(EMPTY_BOOK);
    assert Scan(ip, q, source, 1) == Err(e);
    ErrorStays(ip, q, source, 1, |source|);
  }

  /** So do two conflicting records in front. */
  lemma FirstConflictDecides(ip: IpText, q: Request, r: Json, r': Json, rest: seq<Json>, p: Publication,
                             p': Publication, a: Ip)
    requires ValidRequest(q) && a in p.addresses && a in p'.addresses && p.name != p'.name
    ensures Publish(ip, q, r) == Ok(p) && Publish(ip, q, r') == Ok(p') ==>
              Diagnostic(ip, q, [r, r'] + rest) == Some(ContractViolation)
  {
    hide Publish, ValidRequest;
    if Publish(ip, q, r) == Ok(p) && Publish(ip, q, r') == Ok(p') {
      var source := [r, r'] + rest;
      assert source[0] == r && source[1] == r';
      assert Scan(ip, q, source, 0) == Ok(EMPTY_BOOK);
      assert !Conflicts(EMPTY_BOOK, p);
      assert Scan(ip, q, source, 1) == Ok(Enter(EMPTY_BOOK, p));
      assert Conflicts(Enter(EMPTY_BOOK, p), p');
      ErrorStays(ip, q, source, 2, |source|);
    }
  }

  lemma InFront(source: seq<Json>, r: Json) returns (rest: seq<Json>)
    requires r in source
    ensures multiset([r] + rest) == multiset(source)
    ensures forall x | x in source && x != r :: x in rest
  {
    var i :| 0 <= i < |source| && source[i] == r;
    rest := source[..i] + source[i + 1..];
    assert source == source[..i] + ([source[i]] + source[i + 1..]);
  }

  /**
   * A refused source is refused with the same error in every order if and only if it
   * does not both lack some host name and violate the contract elsewhere.
   */
  lemma DiagnosticIgnoresOrderIff(ip: IpText, q: Request, source: seq<Json>)
    requires ValidRequest(q) && source != [] && Diagnostic(ip, q, source).Some?
    ensures (forall other: seq<Json> | multiset(other) == multiset(source) ::
               Diagnostic(ip, q, other) == Diagnostic(ip, q, source))
       <==> !(Yields(ip, q, source, PublicationHostnameMissing) && Violates(ip, q, source))
  {
    if Yields(ip, q, source, PublicationHostnameMissing) && Violates(ip, q, source) {
      hide Diagnostic, Publish, ValidRequest, Yields;
      var a := MissingInFront(ip, q, source);
      var b := ViolationInFront(ip, q, source);
    } else {
      forall other: seq<Json> | multiset(other) == multiset(source)
        ensures Diagnostic(ip, q, other) == Diagnostic(ip, q, source)
      {
        OneKindOfError(ip, q, source, other);
      }
    }
  }

  lemma MissingInFront(ip: IpText, q: Request, source: seq<Json>) returns (other: seq<Json>)
    requires ValidRequest(q) && Yields(ip, q, source, PublicationHostnameMissing)
    ensures multiset(other) == multiset(source) && Diagnostic(ip, q, other) == Some(PublicationHostnameMissing)
  {
    hide Publish, ValidRequest;
    var r :| r in source && Publish(ip, q, r) == Err(PublicationHostnameMissing);
    var rest := InFront(source, r);
    other := [r] + rest;
    FirstErrorDecides(ip, q, r, rest, PublicationHostnameMissing);
  }

  lemma ViolationInFront(ip: IpText, q: Request, source: seq<Json>) returns (other: seq<Json>)
    requires ValidRequest(q) && Violates(ip, q, source)
    ensures multiset(other) == multiset(source) && Diagnostic(ip, q, other) == Some(ContractViolation)
  {
    hide Publish, ValidRequest, Diagnostic;
    if r :| r in source && Publish(ip, q, r) == Err(ContractViolation) {
      var rest := InFront(source, r);
      other := [r] + rest;
      FirstErrorDecides(ip, q, r, rest, ContractViolation);
    } else {
      var p, p', a :| Published(ip, q, source, |source|, p) && Published(ip, q, source, |source|, p')
                      && a in p.addresses && a in p'.addresses && p.name != p'.name;
      assert source[..|source|] == source;
      var r :| r in source && Publish(ip, q, r) == Ok(p);
      var r' :| r' in source && Publish(ip, q, r') == Ok(p');
      var rest := InFront(source, r);
      var rest' := InFront(rest, r');
      other := [r, r'] + rest';
      assert other == [r] + ([r'] + rest');
      FirstConflictDecides(ip, q, r, r', rest', p, p', a);
    }
  }

  lemma SameCauses(ip: IpText, q: Request, a: seq<Json>, b: seq<Json>)
    requires forall r :: r in a <==> r in b
    ensures forall e :: Yields(ip, q, a, e) <==> Yields(ip, q, b, e)
    ensures Violates(ip, q, a) <==> Violates(ip, q, b)
  {
    SameRecordsSamePublications(ip, q, a, b);
    hide Publish, Published;
    assert NoConflict(ip, q, a, |a|) <==> NoConflict(ip, q, b, |b|);
    hide NoConflict;
  }

  lemma OneKindOfError(ip: IpText, q: Request, a: seq<Json>, b: seq<Json>)
    requires ValidRequest(q) && a != [] && Diagnostic(ip, q, a).Some? && multiset(b) == multiset(a)
    requires !(Yields(ip, q, a, PublicationHostnameMissing) && Violates(ip, q, a))
    ensures Diagnostic(ip, q, b) == Diagnostic(ip, q, a)
  {
    PermutationInvariant(ip, q, a, b);
    assert |b| == |a| by {
      assert |multiset(b)| == |multiset(a)|;
    }
    forall r
      ensures r in a <==> r in b
    {
      assert r in a <==> r in multiset(a);
      assert r in b <==> r in multiset(b);
    }
    SameCauses(ip, q, a, b);
    hide Yields, Violates, ValidRequest, Scan;
    ScanErrorCause(ip, q, a, |a|);
    ScanErrorCause(ip, q, b, |b|);
    var missing := PublicationHostnameMissing;
    assert Yields(ip, q, a, missing) <==> Yields(ip, q, b, missing);
    match (Scan(ip, q, a, |a|).error, Scan(ip, q, b, |b|).error) {
      case (ContractViolation, ContractViolation) =>
      case (PublicationHostnameMissing, PublicationHostnameMissing) =>
      case (ContractViolation, PublicationHostnameMissing) => assert false;
      case (PublicationHostnameMissing, ContractViolation) => assert false;
    }
  }

  /** A record with a dotted host name, and one without any. */
  const DOTTED := Obj(map["id" := Str("a"), "scope" := Str("lan"), "hostname" := Str("a.b")])
  const NAMELESS := Obj(map["id" := Str("b"), "scope" := Str("lan")])

  /** On these two records the diagnostic depends on the order. */
  lemma DiagnosticFollowsOrder(ip: IpText)
    ensures (var q := Request("lan", "x.", ["A"]);
             && ValidRequest(q)
             && Diagnostic(ip, q, [DOTTED, NAMELESS]) == Some(ContractViolation)
             && Diagnostic(ip, q, [NAMELESS, DOTTED]) == Some(PublicationHostnameMissing))
  {
    var q := Request("lan", "x.", ["A"]);
    assert q.namespace[1..] == "." && "."[1..] == "";
    assert NamespaceRest("", false) && NamespaceRest(".", true) && NamespaceRest("x.", false);
    assert "a.b"[1] == '.' && '.' in "a.b";
    assert Publish(ip, q, DOTTED) == Err(ContractViolation);
    assert Publish(ip, q, NAMELESS) == Err(PublicationHostnameMissing);
    hide Publish, ValidRequest, Diagnostic, DOTTED, NAMELESS;
    assert [DOTTED, NAMELESS] == [DOTTED] + [NAMELESS] && [NAMELESS, DOTTED] == [NAMELESS] + [DOTTED];
    FirstErrorDecides(ip, q, DOTTED, [NAMELESS], ContractViolation);
    FirstErrorDecides(ip, q, NAMELESS, [DOTTED], PublicationHostnameMissing);
  }

  // ---------------------------------------------------------------- forward and reverse data

  predicate NoRepeat(lines: seq<Line>) {
    forall i, j | 0 <= i < j < |lines| :: lines[i] != lines[j]
  }

  lemma NoRepeatAppend(a: seq<Line>, b: seq<Line>)
    requires NoRepeat(a) && NoRepeat(b) && forall x | x in a :: x !in b
    ensures NoRepeat(a + b)
  {
    var all := a + b;
    forall i, j | 0 <= i < j < |all|
      ensures all[i] != all[j]
    {
      if i < |a| <= j {
        assert all[i] in a && all[j] in b;
      }
    }
  }

  /** The line belongs to the addresses `values` of `name` in family `f`, and its class was requested. */
  predicate LineFor(q: Request, line: Line, name: Name, f: Family, values: seq<nat>) {
    match line
    case Server => false
    case Data(n, a) => n == name && a.family == f && a.value in values && ClassOf(f) in q.classes
    case Pointer(a, n) => n == name && a.family == f && a.value in values && "PTR" in q.classes
  }

  lemma AddressLinesStep(q: Request, name: Name, f: Family, rest: seq<nat>, v: nat)
    ensures AddressLines(q, name, f, rest + [v])
         == AddressLines(q, name, f, rest)
            + (if ClassOf(f) in q.classes then [Data(name, Ip(f, v))] else [])
            + (if "PTR" in q.classes then [Pointer(Ip(f, v), name)] else [])
  {
    assert (rest + [v])[..|rest|] == rest;
  }

  lemma {:induction false} AddressLinesMembers(q: Request, name: Name, f: Family, values: seq<nat>)
    ensures forall line :: line in AddressLines(q, name, f, values) <==> LineFor(q, line, name, f, values)
  {
    if values != [] {
      var rest, v := values[..|values| - 1], values[|values| - 1];
      assert values == rest + [v];
      AddressLinesMembers(q, name, f, rest);
      AddressLinesStep(q, name, f, rest, v);
      hide AddressLines, ClassOf;
    }
  }

  lemma {:induction false} AddressLinesDistinct(q: Request, name: Name, f: Family, values: seq<nat>)
    requires forall i, j | 0 <= i < j < |values| :: values[i] != values[j]
    ensures NoRepeat(AddressLines(q, name, f, values))
  {
    if values != [] {
      var rest, v := values[..|values| - 1], values[|values| - 1];
      assert values == rest + [v];
      assert forall k | 0 <= k < |rest| :: rest[k] == values[k];
      AddressLinesDistinct(q, name, f, rest);
      AddressLinesMembers(q, name, f, rest);
      AddressLinesStep(q, name, f, rest, v);
      var data := if ClassOf(f) in q.classes then [Data(name, Ip(f, v))] else [];
      var pointer := if "PTR" in q.classes then [Pointer(Ip(f, v), name)] else [];
      hide AddressLines, ClassOf;
      NoRepeatAppend(AddressLines(q, name, f, rest), data);
      NoRepeatAppend(AddressLines(q, name, f, rest) + data, pointer);
    }
  }

  predicate LineOfName(q: Request, line: Line, name: Name, addresses: set<Ip>) {
    match line
    case Server => false
    case Data(n, a) => n == name && a in addresses && ClassOf(a.family) in q.classes
    case Pointer(a, n) => n == name && a in addresses && "PTR" in q.classes
  }

  lemma NameLinesMembers(q: Request, name: Name, addresses: set<Ip>)
    ensures forall line :: line in NameLines(q, name, addresses) <==> LineOfName(q, line, name, addresses)
    ensures NoRepeat(NameLines(q, name, addresses))
  {
    var v4, v6 := SortedValues(addresses, V4), SortedValues(addresses, V6);
    AddressLinesMembers(q, name, V4, v4);
    AddressLinesMembers(q, name, V6, v6);
    AddressLinesDistinct(q, name, V4, v4);
    AddressLinesDistinct(q, name, V6, v6);
    hide AddressLines;
    NoRepeatAppend(AddressLines(q, name, V4, v4), AddressLines(q, name, V6, v6));
    forall line
      ensures line in NameLines(q, name, addresses) <==> LineOfName(q, line, name, addresses)
    {
      if !line.Server? {
        assert line.address == Ip(line.address.family, line.address.value);
      }
    }
  }

  lemma OtherName(q: Request, line: Line, n: Name, a: set<Ip>, n': Name, a': set<Ip>)
    requires LineOfName(q, line, n, a) && n != n'
    ensures !LineOfName(q, line, n', a')
  {
  }

  lemma {:induction false} LinesMembers(q: Request, byName: map<Name, set<Ip>>, names: seq<Name>, count: nat,
                                        line: Line)
    requires count <= |names| && (forall n | n in names :: n in byName)
    ensures line in LinesOf(q, byName, names, count) <==>
              exists i :: 0 <= i < count && LineOfName(q, line, names[i], byName[names[i]])
    decreases count
  {
    hide NameLines, NoRepeat, LineOfName;
    if count > 0 {
      LinesMembers(q, byName, names, count - 1, line);
      NameLinesMembers(q, names[count - 1], byName[names[count - 1]]);
    }
  }

  lemma {:induction false} LinesDistinct(q: Request, byName: map<Name, set<Ip>>, names: seq<Name>, count: nat)
    requires count <= |names| && (forall n | n in names :: n in byName)
    requires forall i, j | 0 <= i < j < |names| :: names[i] != names[j]
    ensures NoRepeat(LinesOf(q, byName, names, count))
    decreases count
  {
    hide NameLines, LineOfName;
    if count > 0 {
      var name := names[count - 1];
      LinesDistinct(q, byName, names, count - 1);
      NameLinesMembers(q, name, byName[name]);
      hide NoRepeat;
      forall line | line in LinesOf(q, byName, names, count - 1)
        ensures line !in NameLines(q, name, byName[name])
      {
        LinesMembers(q, byName, names, count - 1, line);
        var i :| 0 <= i < count - 1 && LineOfName(q, line, names[i], byName[names[i]]);
        OtherName(q, line, names[i], byName[names[i]], name, byName[name]);
      }
      NoRepeatAppend(LinesOf(q, byName, names, count - 1), NameLines(q, name, byName[name]));
    }
  }

  lemma BookLines(q: Request, byName: map<Name, set<Ip>>)
    ensures NoRepeat(Lines(q, byName))
    ensures forall n, a :: Data(n, a) in Lines(q, byName) <==>
              ClassOf(a.family) in q.classes && n in byName && a in byName[n]
    ensures forall n, a :: Pointer(a, n) in Lines(q, byName) <==> "PTR" in q.classes && n in byName && a in byName[n]
  {
    hide LinesOf, SortedNames, ClassOf;
    var names := SortedNames(byName.Keys);
    var data := LinesOf(q, byName, names, |names|);
    LinesDistinct(q, byName, names, |names|);
    forall line
      ensures line in data <==> exists i :: 0 <= i < |names| && LineOfName(q, line, names[i], byName[names[i]])
    {
      LinesMembers(q, byName, names, |names|, line);
    }
    NoRepeatAppend([Server], data);
    hide NoRepeat;
    forall n, a
      ensures Data(n, a) in data <==> ClassOf(a.family) in q.classes && n in byName && a in byName[n]
      ensures Pointer(a, n) in data <==> "PTR" in q.classes && n in byName && a in byName[n]
    {
      if n in byName {
        var i :| 0 <= i < |names| && names[i] == n;
        assert LineOfName(q, Data(n, a), names[i], byName[names[i]])
            <==> ClassOf(a.family) in q.classes && a in byName[n];
        assert LineOfName(q, Pointer(a, n), names[i], byName[names[i]]) <==> "PTR" in q.classes && a in byName[n];
      }
    }
  }

  /**
   * The lines of an accepted source: forward data for every published address of a
   * requested class and, when PTR is requested, reverse data for every published
   * address, each line once.
   */
  lemma LinesMeaning(ip: IpText, q: Request, source: seq<Json>)
    requires Outcome(ip, q, source).Some?
    ensures var lines := Outcome(ip, q, source).value.0;
            && NoRepeat(lines)
            && (forall n, a :: Data(n, a) in lines <==>
                  ClassOf(a.family) in q.classes
                  && exists p :: Published(ip, q, source, |source|, p) && p.name == n && a in p.addresses)
            && (forall n, a :: Pointer(a, n) in lines <==>
                  "PTR" in q.classes
                  && exists p :: Published(ip, q, source, |source|, p) && p.name == n && a in p.addresses)
  {
    hide Published, Lines, NoRepeat, ValidRequest, Scan, AllPublish, NoConflict, ClassOf;
    ScanMeaning(ip, q, source, |source|);
    var book := Scan(ip, q, source, |source|).value;
    BookLines(q, book.byName);
    hide Outcome;
    forall n, a
      ensures (n in book.byName && a in book.byName[n])
         <==> exists p :: Published(ip, q, source, |source|, p) && p.name == n && a in p.addresses
    {
    }
  }

  /**
   * With PTR requested every published address has exactly one reverse line, which
   * names its single owner, and every forward line has its matching reverse line.
   */
  lemma OnePointerPerAddress(ip: IpText, q: Request, source: seq<Json>, p: Publication, a: Ip)
    requires Outcome(ip, q, source).Some? && "PTR" in q.classes
    requires Published(ip, q, source, |source|, p) && a in p.addresses
    ensures var lines := Outcome(ip, q, source).value.0;
            && Pointer(a, p.name) in lines
            && (forall i, j | 0 <= i < |lines| && 0 <= j < |lines| && lines[i].Pointer? && lines[j].Pointer?
                              && lines[i].address == a == lines[j].address :: i == j)
    ensures forall n, x :: Data(n, x) in Outcome(ip, q, source).value.0 ==>
              Pointer(x, n) in Outcome(ip, q, source).value.0
  {
    LinesMeaning(ip, q, source);
    ScanMeaning(ip, q, source, |source|);
    var lines := Outcome(ip, q, source).value.0;
    assert NoConflict(ip, q, source, |source|);
    hide Published, Outcome, Scan;
    forall i, j | 0 <= i < |lines| && 0 <= j < |lines| && lines[i].Pointer? && lines[j].Pointer?
                  && lines[i].address == a == lines[j].address
      ensures i == j
    {
      assert lines[i] in lines && lines[j] in lines;
      assert lines[i] == Pointer(a, lines[i].name) && lines[j] == Pointer(a, lines[j].name);
      assert lines[i].name == p.name == lines[j].name;
    }
  }
}
