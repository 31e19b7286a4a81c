/**
 * The logical-to-runtime interface maps of a site (clabgen/s88/site/eth_map.py) and
 * the link endpoints rendered from them (clabgen/s88/site/links.py).
 */
module EthMaps {
  import opened Common
  import opened Sorting

  datatype IfaceKind = TenantIface | OverlayIface | OtherIface

  /** A runtime name that CPM did not declare is None. */
  datatype Iface = Iface(kind: IfaceKind, runtime: Option<Name>)

  /** Interfaces by logical name, and the (non-empty) interfaces of the PPPoE client and server services. */
  datatype SiteNode = SiteNode(interfaces: map<Name, Iface>, pppoe: seq<Name>)

  /** A link maps node names to the interface of the endpoint, None when it names none. */
  datatype Site = Site(nodes: map<Name, SiteNode>, links: map<Name, map<Name, Option<Name>>>)

  datatype MapError =
    | UnknownNode(node: Name) | MissingEndpoint(node: Name) | MissingInterface(node: Name, logical: Name)
    | MissingRuntime(node: Name, logical: Name) | NameCollision(node: Name, runtime: Name)

  const MAX_IFNAME: nat := 15

  /** Long names are replaced by a digest, cut to 15 characters. */
  function ShortIfname(digest: string -> string, seed: Name): (r: Name)
    ensures |r.text| <= MAX_IFNAME
    ensures |seed.text| <= MAX_IFNAME ==> r == seed
    ensures seed.text != "" ==> r.text != ""
  {
    if |seed.text| <= MAX_IFNAME then seed
    else
      var short := "if-" + digest(seed.text);
      if |short| <= MAX_IFNAME then Name(short) else Name(short[..MAX_IFNAME])
  }

  function TargetIfname(site: Site, digest: string -> string, node: Name, logical: Name): (r: Result<Name, MapError>)
    ensures r.Ok? ==> 0 < |r.value.text| <= MAX_IFNAME
  {
    if node !in site.nodes then Err(UnknownNode(node))
    else if logical !in site.nodes[node].interfaces then Err(MissingInterface(node, logical))
    else
      var runtime := site.nodes[node].interfaces[logical].runtime;
      if runtime.None? || runtime.value.text == "" then Err(MissingRuntime(node, logical))
      else Ok(ShortIfname(digest, runtime.value))
  }

  predicate IsIfname(name: Name) {
    0 < |name.text| <= MAX_IFNAME
  }

  // ------------------------------------------------------------- what must be mapped

  /** An interface of a node that must end up in the maps. */
  datatype Request = Request(node: Name, logical: Option<Name>)

  function EndpointRequests(link: map<Name, Option<Name>>): seq<Request> {
    var nodes := SortedNames(link.Keys);
    seq(|nodes|, i requires 0 <= i < |nodes| => Request(nodes[i], NonEmpty(link[nodes[i]])))
  }

  /** An endpoint with an empty interface name names no interface. */
  function NonEmpty(logical: Option<Name>): Option<Name> {
    if logical.Some? && logical.value.text == "" then None else logical
  }

  predicate NeedsMapping(iface: Iface) {
    iface.kind == TenantIface || iface.kind == OverlayIface
  }

  function NodeRequests(node: Name, n: SiteNode): seq<Request> {
    var names := SortedNames(set i | i in n.interfaces && NeedsMapping(n.interfaces[i]));
    ForEach(node, names) + ForEach(node, n.pppoe)
  }

  function ForEach(node: Name, names: seq<Name>): seq<Request> {
    seq(|names|, i requires 0 <= i < |names| => Request(node, Some(names[i])))
  }

  function LinkRequests(site: Site, links: seq<Name>, count: nat): seq<Request>
    requires count <= |links| && forall l | l in links :: l in site.links
  {
    if count == 0 then []
    else LinkRequests(site, links, count - 1) + EndpointRequests(site.links[links[count - 1]])
  }

  function AllNodeRequests(site: Site, nodes: seq<Name>, count: nat): seq<Request>
    requires count <= |nodes| && forall n | n in nodes :: n in site.nodes
  {
    if count == 0 then []
    else AllNodeRequests(site, nodes, count - 1) + NodeRequests(nodes[count - 1], site.nodes[nodes[count - 1]])
  }

  /** All requests in the order the source meets them: link endpoints, then node by node. */
  function Requests(site: Site): seq<Request> {
    var (links, nodes) := (SortedNames(site.links.Keys), SortedNames(site.nodes.Keys));
    LinkRequests(site, links, |links|) + AllNodeRequests(site, nodes, |nodes|)
  }

  // ---------------------------------------------------------------------- the two maps

  type Maps = map<Name, map<Name, Name>>

  /** `eth_maps`: node to logical to runtime; `used_names`: node to runtime to logical. */
  datatype State = State(eth: Maps, used: Maps)

  function Handle(site: Site, digest: string -> string, s: State, r: Request): (next: Result<State, MapError>)
    requires s.eth.Keys == site.nodes.Keys == s.used.Keys
    ensures next.Ok? ==> next.value.eth.Keys == site.nodes.Keys == next.value.used.Keys
  {
    if r.node !in site.nodes then Err(UnknownNode(r.node))
    else if r.logical.None? then Err(MissingEndpoint(r.node))
    else if r.logical.value in s.eth[r.node] then Ok(s)
    else
      match TargetIfname(site, digest, r.node, r.logical.value)
      case Err(e) => Err(e)
      case Ok(target) =>
        if target in s.used[r.node] && s.used[r.node][target] != r.logical.value then Err(NameCollision(r.node, target))
        else Ok(State(s.eth[r.node := s.eth[r.node][r.logical.value := target]],
                      s.used[r.node := s.used[r.node][target := r.logical.value]]))
  }

  /** The state after the first `count` requests, or the first error. */
  function HandleAll(site: Site, digest: string -> string, requests: seq<Request>, count: nat)
      : (r: Result<State, MapError>)
    requires count <= |requests|
    ensures r.Ok? ==> r.value.eth.Keys == site.nodes.Keys == r.value.used.Keys
  {
    if count == 0 then
      Ok(State(map n | n in site.nodes :: map[], map n | n in site.nodes :: map[]))
    else
      match HandleAll(site, digest, requests, count - 1)
      case Err(e) => Err(e)
      case Ok(s) => Handle(site, digest, s, requests[count - 1])
  }

  lemma {:induction false} HandlePrefix(site: Site, digest: string -> string, a: seq<Request>, b: seq<Request>,
                                        count: nat)
    requires count <= |a| && count <= |b| && a[..count] == b[..count]
    ensures HandleAll(site, digest, a, count) == HandleAll(site, digest, b, count)
    decreases count
  {
    if count > 0 {
      assert a[..count - 1] == a[..count][..count - 1] && b[..count - 1] == b[..count][..count - 1];
      assert a[count - 1] == a[..count][count - 1] && b[count - 1] == b[..count][count - 1];
      HandlePrefix(site, digest, a, b, count - 1);
    }
  }

  function After(site: Site, digest: string -> string, requests: seq<Request>): (r: Result<State, MapError>)
    ensures r.Ok? ==> r.value.eth.Keys == site.nodes.Keys == r.value.used.Keys
  {
    HandleAll(site, digest, requests, |requests|)
  }

  lemma AfterOneMore(site: Site, digest: string -> string, done: seq<Request>, r: Request)
    ensures After(site, digest, done + [r]) == match After(site, digest, done)
                                               case Err(e) => Err(e)
                                               case Ok(s) => Handle(site, digest, s, r)
  {
    HandlePrefix(site, digest, done + [r], done, |done|);
  }

  lemma {:induction false} ErrorStays(site: Site, digest: string -> string, done: seq<Request>, rest: seq<Request>)
    requires After(site, digest, done).Err?
    ensures After(site, digest, done + rest) == After(site, digest, done)
    decreases |rest|
  {
    hide After;
    if rest == [] {
      assert done + rest == done;
    } else {
      AfterOneMore(site, digest, done, rest[0]);
      ErrorStays(site, digest, done + [rest[0]], rest[1..]);
      assert (done + [rest[0]]) + rest[1..] == done + rest;
    }
  }

  /** The requests of one loop body, taken one after the other. */
  method HandleRequests(site: Site, digest: string -> string, s0: State, requests: seq<Request>,
                        ghost done: seq<Request>)
      returns (r: Result<State, MapError>)
    requires After(site, digest, done) == Ok(s0)
    ensures r == After(site, digest, done + requests)
  {
    hide Handle, HandleAll;
    var s := s0;
    assert done + requests[..0] == done;
    for i := 0 to |requests|
      invariant After(site, digest, done + requests[..i]) == Ok(s)
    {
      AfterOneMore(site, digest, done + requests[..i], requests[i]);
      assert (done + requests[..i]) + [requests[i]] == done + requests[..i + 1];
      var handled := Handle(site, digest, s, requests[i]);
      if handled.Err? {
        ErrorStays(site, digest, done + requests[..i + 1], requests[i + 1..]);
        assert (done + requests[..i + 1]) + requests[i + 1..] == done + requests;
        return handled;
      }
      s := handled.value;
    }
    assert requests[..|requests|] == requests;
    return Ok(s);
  }

  /** The loop over the links, sorted by name. */
  method MapLinks(site: Site, digest: string -> string, links: seq<Name>) returns (r: Result<State, MapError>)
    requires forall l | l in links :: l in site.links
    ensures r.Ok? ==> r == After(site, digest, LinkRequests(site, links, |links|))
    ensures r.Err? ==> exists i :: 0 <= i <= |links| && r == After(site, digest, LinkRequests(site, links, i))
  {
    hide After, EndpointRequests, LinkRequests;
    var s := State(map n | n in site.nodes :: map[], map n | n in site.nodes :: map[]);
    NothingYet(site, digest);
    NoLinkAsked(site, links);
    for i := 0 to |links|
      invariant After(site, digest, LinkRequests(site, links, i)) == Ok(s)
    {
      var requests := EndpointRequests(site.links[links[i]]);
      var handled := HandleRequests(site, digest, s, requests, LinkRequests(site, links, i));
      OneMoreLink(site, links, i);
      if handled.Err? {
        assert handled == After(site, digest, LinkRequests(site, links, i + 1));
        return handled;
      }
      s := handled.value;
    }
    return Ok(s);
  }

  /** The loop over the nodes, sorted by name. */
  method MapNodes(site: Site, digest: string -> string, s0: State, nodes: seq<Name>, ghost asked: seq<Request>)
      returns (r: Result<State, MapError>)
    requires forall n | n in nodes :: n in site.nodes
    requires After(site, digest, asked) == Ok(s0)
    ensures r == After(site, digest, asked + AllNodeRequests(site, nodes, |nodes|))
  {
    hide After, NodeRequests, AllNodeRequests;
    var s := s0;
    NothingAsked(site, asked, nodes);
    for i := 0 to |nodes|
      invariant After(site, digest, asked + AllNodeRequests(site, nodes, i)) == Ok(s)
    {
      var requests := NodeRequests(nodes[i], site.nodes[nodes[i]]);
      var handled := HandleRequests(site, digest, s, requests, asked + AllNodeRequests(site, nodes, i));
      OneMoreNode(site, asked, nodes, i);
      if handled.Err? {
        NodeErrorStays(site, digest, asked, nodes, i + 1);
        return handled;
      }
      s := handled.value;
    }
    return Ok(s);
  }

  method BuildEthMaps(site: Site, digest: string -> string) returns (r: Result<Maps, MapError>)
    ensures r == match After(site, digest, Requests(site))
                 case Err(e) => Err(e)
                 case Ok(s) => Ok(s.eth)
  {
    hide After, LinkRequests, AllNodeRequests, StrictlySorted;
    var links, nodes := SortedNames(site.links.Keys), SortedNames(site.nodes.Keys);
    var mapped := MapLinks(site, digest, links);
    if mapped.Err? {
      ghost var i :| 0 <= i <= |links| && mapped == After(site, digest, LinkRequests(site, links, i));
      LinkErrorStays(site, digest, links, nodes, i);
      return Err(mapped.error);
    }
    mapped := MapNodes(site, digest, mapped.value, nodes, LinkRequests(site, links, |links|));
    return if mapped.Err? then Err(mapped.error) else Ok(mapped.value.eth);
  }

  lemma NoLinkAsked(site: Site, links: seq<Name>)
    requires forall l | l in links :: l in site.links
    ensures LinkRequests(site, links, 0) == []
  {
  }

  lemma OneMoreLink(site: Site, links: seq<Name>, i: nat)
    requires i < |links| && forall l | l in links :: l in site.links
    ensures LinkRequests(site, links, i + 1) == LinkRequests(site, links, i) + EndpointRequests(site.links[links[i]])
  {
  }

  lemma NothingAsked(site: Site, asked: seq<Request>, nodes: seq<Name>)
    requires forall n | n in nodes :: n in site.nodes
    ensures asked + AllNodeRequests(site, nodes, 0) == asked
  {
  }

  lemma OneMoreNode(site: Site, asked: seq<Request>, nodes: seq<Name>, i: nat)
    requires i < |nodes| && forall n | n in nodes :: n in site.nodes
    ensures (asked + AllNodeRequests(site, nodes, i)) + NodeRequests(nodes[i], site.nodes[nodes[i]])
         == asked + AllNodeRequests(site, nodes, i + 1)
  {
    hide NodeRequests;
  }

  lemma NothingYet(site: Site, digest: string -> string)
    ensures After(site, digest, []) == Ok(State(map n | n in site.nodes :: map[], map n | n in site.nodes :: map[]))
  {
  }

  lemma LinkErrorStays(site: Site, digest: string -> string, links: seq<Name>, nodes: seq<Name>, i: nat)
    requires i <= |links| && (forall l | l in links :: l in site.links) && (forall n | n in nodes :: n in site.nodes)
    requires After(site, digest, LinkRequests(site, links, i)).Err?
    ensures After(site, digest, LinkRequests(site, links, |links|) + AllNodeRequests(site, nodes, |nodes|))
            == After(site, digest, LinkRequests(site, links, i))
  {
    hide After, LinkRequests, AllNodeRequests;
    LinkRequestsPrefix(site, links, i, |links|);
    var (some, all) := (LinkRequests(site, links, i),
                        LinkRequests(site, links, |links|) + AllNodeRequests(site, nodes, |nodes|));
    assert all == some + all[|some|..];
    ErrorStays(site, digest, some, all[|some|..]);
  }

  lemma NodeErrorStays(site: Site, digest: string -> string, asked: seq<Request>, nodes: seq<Name>, i: nat)
    requires i <= |nodes| && (forall n | n in nodes :: n in site.nodes)
    requires After(site, digest, asked + AllNodeRequests(site, nodes, i)).Err?
    ensures After(site, digest, asked + AllNodeRequests(site, nodes, |nodes|))
            == After(site, digest, asked + AllNodeRequests(site, nodes, i))
  {
    hide After, AllNodeRequests;
    NodeRequestsPrefix(site, nodes, i, |nodes|);
    var (some, all) := (asked + AllNodeRequests(site, nodes, i), asked + AllNodeRequests(site, nodes, |nodes|));
    assert all == some + all[|some|..];
    ErrorStays(site, digest, some, all[|some|..]);
  }

  lemma {:induction false} LinkRequestsPrefix(site: Site, links: seq<Name>, i: nat, j: nat)
    requires i <= j <= |links| && forall l | l in links :: l in site.links
    ensures LinkRequests(site, links, i) <= LinkRequests(site, links, j)
    decreases j
  {
    hide EndpointRequests;
    if i < j {
      LinkRequestsPrefix(site, links, i, j - 1);
    }
  }

  lemma {:induction false} NodeRequestsPrefix(site: Site, nodes: seq<Name>, i: nat, j: nat)
    requires i <= j <= |nodes| && forall n | n in nodes :: n in site.nodes
    ensures AllNodeRequests(site, nodes, i) <= AllNodeRequests(site, nodes, j)
    decreases j
  {
    hide NodeRequests;
    if i < j {
      NodeRequestsPrefix(site, nodes, i, j - 1);
    }
  }

  // -------------------------------------------------------------------- what is built

  predicate Resolvable(site: Site, digest: string -> string, r: Request) {
    r.node in site.nodes && r.logical.Some?
    && TargetIfname(site, digest, r.node, r.logical.value).Ok?
  }

  /** Two interfaces of one node that would share a runtime name. */
  predicate Collide(site: Site, digest: string -> string, a: Request, b: Request) {
    && Resolvable(site, digest, a) && Resolvable(site, digest, b) && a.node == b.node && a.logical != b.logical
    && TargetIfname(site, digest, a.node, a.logical.value) == TargetIfname(site, digest, b.node, b.logical.value)
  }

  ghost predicate Buildable(site: Site, digest: string -> string, requests: seq<Request>, count: nat)
    requires count <= |requests|
  {
    && (forall i | 0 <= i < count :: Resolvable(site, digest, requests[i]))
    && (forall i, j | 0 <= i < count && 0 <= j < count :: !Collide(site, digest, requests[i], requests[j]))
  }

  ghost predicate Asked(requests: seq<Request>, count: nat, node: Name, logical: Name)
    requires count <= |requests|
  {
    exists i :: 0 <= i < count && requests[i] == Request(node, Some(logical))
  }

  predicate MapsTo(m: Maps, node: Name, source: Name, target: Name) {
    node in m && source in m[node] && m[node][source] == target
  }

  /**
   * Per node the two maps are exact inverses: a runtime name is used exactly by the
   * interface mapped to it; and what is mapped is what was asked for, to its target.
   */
  ghost predicate ExactInverse(site: Site, digest: string -> string, requests: seq<Request>, count: nat, s: State)
    requires count <= |requests|
  {
    && s.eth.Keys == site.nodes.Keys == s.used.Keys
    && (forall n, l, t :: MapsTo(s.eth, n, l, t) <==> MapsTo(s.used, n, t, l))
    && (forall n, l, t :: MapsTo(s.eth, n, l, t) <==>
          n in site.nodes && Asked(requests, count, n, l) && TargetIfname(site, digest, n, l) == Ok(t))
  }

  lemma AskedStep(requests: seq<Request>, count: nat)
    requires 0 < count <= |requests|
    ensures forall n, l :: Asked(requests, count, n, l) <==>
              Asked(requests, count - 1, n, l) || requests[count - 1] == Request(n, Some(l))
  {
    forall n, l | Asked(requests, count - 1, n, l) || requests[count - 1] == Request(n, Some(l))
      ensures Asked(requests, count, n, l)
    {
      if requests[count - 1] != Request(n, Some(l)) {
        var i :| 0 <= i < count - 1 && requests[i] == Request(n, Some(l));
        assert requests[i] == Request(n, Some(l));
      }
    }
  }

  lemma BuildableStep(site: Site, digest: string -> string, requests: seq<Request>, count: nat)
    requires 0 < count <= |requests|
    ensures Buildable(site, digest, requests, count) <==>
              Buildable(site, digest, requests, count - 1) && Resolvable(site, digest, requests[count - 1])
              && forall i | 0 <= i < count - 1 :: !Collide(site, digest, requests[i], requests[count - 1])
  {
  }

  /** One request succeeds exactly when it resolves and collides with nothing asked before. */
  lemma HandleStep(site: Site, digest: string -> string, requests: seq<Request>, count: nat, s: State)
    requires 0 < count <= |requests|
    requires forall i | 0 <= i < count - 1 :: Resolvable(site, digest, requests[i])
    requires ExactInverse(site, digest, requests, count - 1, s)
    ensures (var handled := Handle(site, digest, s, requests[count - 1]);
             && (handled.Ok? <==> (Resolvable(site, digest, requests[count - 1])
                                   && forall i | 0 <= i < count - 1 ::
                                       !Collide(site, digest, requests[i], requests[count - 1])))
             && (handled.Ok? ==> ExactInverse(site, digest, requests, count, handled.value)))
  {
    hide TargetIfname;
    AskedStep(requests, count);
    var r := requests[count - 1];
    if r.node in s.eth && r.logical.Some? && r.logical.value in s.eth[r.node] {
      assert MapsTo(s.eth, r.node, r.logical.value, s.eth[r.node][r.logical.value]);
      assert MapsTo(s.used, r.node, s.eth[r.node][r.logical.value], r.logical.value);
    }
    if Resolvable(site, digest, r) {
      var (n, l) := (r.node, r.logical.value);
      var t := TargetIfname(site, digest, n, l).value;
      if t in s.used[n] && s.used[n][t] != l {
        assert MapsTo(s.used, n, t, s.used[n][t]);
        assert MapsTo(s.eth, n, s.used[n][t], t);
        var i :| 0 <= i < count - 1 && requests[i] == Request(n, Some(s.used[n][t]));
        assert Collide(site, digest, requests[i], r);
      } else {
        forall i | 0 <= i < count - 1 && requests[i].node == n && requests[i].logical != r.logical
          ensures TargetIfname(site, digest, n, requests[i].logical.value) != Ok(t)
        {
          assert Resolvable(site, digest, requests[i]);
          var other := requests[i].logical.value;
          var t' := TargetIfname(site, digest, n, other).value;
          assert Asked(requests, count - 1, n, other);
          assert MapsTo(s.eth, n, other, t') && MapsTo(s.used, n, t', other);
        }
        HandleNew(site, digest, requests, count, s);
      }
    }
  }

  lemma HandleNew(site: Site, digest: string -> string, requests: seq<Request>, count: nat, s: State)
    requires 0 < count <= |requests| && ExactInverse(site, digest, requests, count - 1, s)
    requires Resolvable(site, digest, requests[count - 1])
    requires (var r := requests[count - 1]; var t := TargetIfname(site, digest, r.node, r.logical.value).value;
              t in s.used[r.node] ==> s.used[r.node][t] == r.logical.value)
    ensures (var handled := Handle(site, digest, s, requests[count - 1]);
             handled.Ok? && ExactInverse(site, digest, requests, count, handled.value))
  {
    hide TargetIfname, Asked;
    AskedStep(requests, count);
    var r := requests[count - 1];
    var (n, l) := (r.node, r.logical.value);
    var t := TargetIfname(site, digest, n, l).value;
    var s' := Handle(site, digest, s, r).value;
    if l in s.eth[n] {
      assert MapsTo(s.eth, n, l, s.eth[n][l]);
      assert Asked(requests, count - 1, n, l);
    } else {
      assert !MapsTo(s.eth, n, l, t);
      assert t in s.used[n] ==> MapsTo(s.used, n, t, l);
      assert forall n', l', t' ::
        MapsTo(s'.eth, n', l', t') <==> MapsTo(s.eth, n', l', t') || (n', l', t') == (n, l, t);
      assert forall n', l', t' ::
        MapsTo(s'.used, n', t', l') <==> MapsTo(s.used, n', t', l') || (n', l', t') == (n, l, t);
    }
  }

  /**
   * The maps are built exactly when every request resolves and no two interfaces of a
   * node share a runtime name, and then they are exact inverses over what was asked.
   */
  lemma {:induction false} HandleAllMeaning(site: Site, digest: string -> string, requests: seq<Request>, count: nat)
    requires count <= |requests|
    ensures (var r := HandleAll(site, digest, requests, count);
             && (r.Ok? <==> Buildable(site, digest, requests, count))
             && (r.Ok? ==> ExactInverse(site, digest, requests, count, r.value)))
  {
    if count > 0 {
      hide Handle, ExactInverse, Buildable, Resolvable, Collide;
      HandleAllMeaning(site, digest, requests, count - 1);
      BuildableStep(site, digest, requests, count);
      if HandleAll(site, digest, requests, count - 1).Ok? {
        BuildableResolves(site, digest, requests, count - 1);
        HandleStep(site, digest, requests, count, HandleAll(site, digest, requests, count - 1).value);
      }
    }
  }

  lemma BuildableResolves(site: Site, digest: string -> string, requests: seq<Request>, count: nat)
    requires count <= |requests| && Buildable(site, digest, requests, count)
    ensures forall i | 0 <= i < count :: Resolvable(site, digest, requests[i])
  {
  }

  // ------------------------------------------------------- what a site as a whole needs

  /** `logical` of `node` is a link endpoint, a tenant or overlay interface, or a PPPoE one. */
  ghost predicate Needed(site: Site, node: Name, logical: Name) {
    || (exists link :: LinkAsks(site, link, Request(node, Some(logical))))
    || (node in site.nodes && logical in site.nodes[node].interfaces
        && NeedsMapping(site.nodes[node].interfaces[logical]))
    || (node in site.nodes && logical in site.nodes[node].pppoe)
  }

  lemma EndpointRequestsAre(link: map<Name, Option<Name>>, r: Request)
    ensures r in EndpointRequests(link) <==> r.node in link && NonEmpty(link[r.node]) == r.logical
  {
    hide StrictlySorted, NonEmpty;
    var nodes := SortedNames(link.Keys);
    if r.node in link {
      assert r.node in nodes;
      var i :| 0 <= i < |nodes| && nodes[i] == r.node;
      assert EndpointRequests(link)[i] == Request(r.node, NonEmpty(link[r.node]));
    }
  }

  predicate LinkAsks(site: Site, link: Name, r: Request) {
    link in site.links && r.node in site.links[link] && NonEmpty(site.links[link][r.node]) == r.logical
  }

  lemma {:induction false} LinkRequestsAre(site: Site, links: seq<Name>, count: nat, r: Request)
    requires count <= |links| && forall l | l in links :: l in site.links
    ensures r in LinkRequests(site, links, count) <==> exists i :: 0 <= i < count && LinkAsks(site, links[i], r)
  {
    hide EndpointRequests, NonEmpty;
    if count > 0 {
      LinkRequestsAre(site, links, count - 1, r);
      EndpointRequestsAre(site.links[links[count - 1]], r);
      if r in EndpointRequests(site.links[links[count - 1]]) {
        assert LinkAsks(site, links[count - 1], r);
      }
    }
  }

  lemma NodeRequestsAre(node: Name, n: SiteNode, r: Request)
    ensures r in NodeRequests(node, n) <==>
              r.node == node && r.logical.Some?
              && (r.logical.value in n.pppoe
                  || (r.logical.value in n.interfaces && NeedsMapping(n.interfaces[r.logical.value])))
  {
    hide StrictlySorted;
    ForEachAre(node, SortedNames(set i | i in n.interfaces && NeedsMapping(n.interfaces[i])), r);
    ForEachAre(node, n.pppoe, r);
    hide ForEach;
  }

  lemma ForEachAre(node: Name, names: seq<Name>, r: Request)
    ensures r in ForEach(node, names) <==> r.node == node && r.logical.Some? && r.logical.value in names
  {
    if r.logical.Some? && r.logical.value in names {
      var i :| 0 <= i < |names| && names[i] == r.logical.value;
      assert ForEach(node, names)[i] == Request(node, r.logical);
    }
  }

  lemma {:induction false} AllNodeRequestsAre(site: Site, nodes: seq<Name>, count: nat, r: Request)
    requires count <= |nodes| && forall n | n in nodes :: n in site.nodes
    ensures r in AllNodeRequests(site, nodes, count) <==>
              exists i :: 0 <= i < count && r in NodeRequests(nodes[i], site.nodes[nodes[i]])
  {
    hide NodeRequests;
    if count > 0 {
      AllNodeRequestsAre(site, nodes, count - 1, r);
    }
  }

  lemma RequestsAreTheNeeds(site: Site, node: Name, logical: Name)
    ensures Request(node, Some(logical)) in Requests(site) <==> Needed(site, node, logical)
  {
    hide LinkRequests, AllNodeRequests, LinkAsks, NeedsMapping;
    var (links, nodes) := (SortedNames(site.links.Keys), SortedNames(site.nodes.Keys));
    var r := Request(node, Some(logical));
    LinksAskExactly(site, r);
    NodesAskExactly(site, r);
  }

  lemma LinksAskExactly(site: Site, r: Request)
    ensures (var links := SortedNames(site.links.Keys);
             r in LinkRequests(site, links, |links|) <==> exists link :: LinkAsks(site, link, r))
  {
    hide LinkRequests, StrictlySorted;
    var links := SortedNames(site.links.Keys);
    LinkRequestsAre(site, links, |links|, r);
    if link :| LinkAsks(site, link, r) {
      assert link in links;
      hide LinkAsks;
      var i :| 0 <= i < |links| && links[i] == link;
    }
  }

  lemma NodesAskExactly(site: Site, r: Request)
    ensures (var nodes := SortedNames(site.nodes.Keys);
             r in AllNodeRequests(site, nodes, |nodes|)
             <==> r.node in site.nodes && r in NodeRequests(r.node, site.nodes[r.node]))
    ensures r.node in site.nodes ==>
              (var n := site.nodes[r.node];
               r in NodeRequests(r.node, n)
               <==> r.logical.Some?
                    && (r.logical.value in n.pppoe
                        || (r.logical.value in n.interfaces && NeedsMapping(n.interfaces[r.logical.value]))))
  {
    hide AllNodeRequests, NodeRequests, StrictlySorted, NeedsMapping;
    var nodes := SortedNames(site.nodes.Keys);
    AllNodeRequestsAre(site, nodes, |nodes|, r);
    forall n | n in site.nodes && r in NodeRequests(n, site.nodes[n])
      ensures n == r.node
    {
      NodeRequestsAre(n, site.nodes[n], r);
    }
    if r.node in site.nodes {
      NodeRequestsAre(r.node, site.nodes[r.node], r);
      assert r.node in nodes;
      var i :| 0 <= i < |nodes| && nodes[i] == r.node;
    }
  }

  /**
   * What the built maps promise: every needed interface is mapped, to the name CPM
   * declared (shortened to what the kernel takes), nothing else is, and two interfaces
   * of a node never share a name.
   */
  lemma BuiltMapsAreInjectiveAndComplete(site: Site, digest: string -> string, s: State)
    requires After(site, digest, Requests(site)) == Ok(s)
    ensures s.eth.Keys == site.nodes.Keys
    ensures forall n, l | n in site.nodes :: l in s.eth[n] <==> Needed(site, n, l)
    ensures forall n, l, t :: MapsTo(s.eth, n, l, t) ==> TargetIfname(site, digest, n, l) == Ok(t) && IsIfname(t)
    ensures forall n, a, b | n in s.eth && a in s.eth[n] && b in s.eth[n] && a != b :: s.eth[n][a] != s.eth[n][b]
  {
    hide Requests, Needed;
    var all := Requests(site);
    HandleAllMeaning(site, digest, all, |all|);
    MappedIsAsked(site, digest, all, s);
    MappedApart(site, digest, all, s);
    forall n, l | n in site.nodes ensures l in s.eth[n] <==> Needed(site, n, l) {
      hide *;
      RequestsAreTheNeeds(site, n, l);
    }
  }

  lemma MappedIsAsked(site: Site, digest: string -> string, all: seq<Request>, s: State)
    requires Buildable(site, digest, all, |all|) && ExactInverse(site, digest, all, |all|, s)
    ensures forall n, l | n in site.nodes :: l in s.eth[n] <==> Request(n, Some(l)) in all
    ensures forall n, l, t :: MapsTo(s.eth, n, l, t) ==> TargetIfname(site, digest, n, l) == Ok(t)
  {
    hide TargetIfname;
    forall n, l | n in site.nodes && Request(n, Some(l)) in all ensures l in s.eth[n] {
      var i :| 0 <= i < |all| && all[i] == Request(n, Some(l));
      assert Resolvable(site, digest, all[i]);
      assert MapsTo(s.eth, n, l, TargetIfname(site, digest, n, l).value);
    }
    forall n, l | n in site.nodes && l in s.eth[n] ensures Request(n, Some(l)) in all {
      assert MapsTo(s.eth, n, l, s.eth[n][l]);
    }
  }

  lemma MappedApart(site: Site, digest: string -> string, all: seq<Request>, s: State)
    requires ExactInverse(site, digest, all, |all|, s)
    ensures forall n, a, b | n in s.eth && a in s.eth[n] && b in s.eth[n] && a != b :: s.eth[n][a] != s.eth[n][b]
  {
    hide TargetIfname, Asked;
    forall n, a, b | n in s.eth && a in s.eth[n] && b in s.eth[n] && a != b ensures s.eth[n][a] != s.eth[n][b] {
      assert MapsTo(s.eth, n, a, s.eth[n][a]) && MapsTo(s.eth, n, b, s.eth[n][b]);
      assert MapsTo(s.used, n, s.eth[n][a], a) && MapsTo(s.used, n, s.eth[n][b], b);
    }
  }

  // --------------------------------------------------------------------- link endpoints

  datatype EndpointError = OutsideNodeSet(node: Name) | NoInterface(node: Name) | NotMapped(node: Name, logical: Name)

  function EndpointText(node: Name, runtime: Name): string {
    node.text + ":" + runtime.text
  }

  function LinkEndpoint(eth: Maps, node: Name, logical: Option<Name>): Result<string, EndpointError> {
    if node !in eth then Err(OutsideNodeSet(node))
    else if NonEmpty(logical).None? then Err(NoInterface(node))
    else if logical.value !in eth[node] then Err(NotMapped(node, logical.value))
    else Ok(EndpointText(node, eth[node][logical.value]))
  }

  /** `b` is `a`, a colon and at most 13 more characters. */
  predicate Confusable(a: Name, b: Name) {
    a.text + ":" <= b.text && |b.text| < |a.text| + MAX_IFNAME
  }

  /** The colon of the text does not always tell the node from the interface. */
  lemma TextsApartIff(n: Name, n': Name)
    requires n != n'
    ensures (forall r, r' | IsIfname(r) && IsIfname(r') :: EndpointText(n, r) != EndpointText(n', r'))
       <==> !Confusable(n, n') && !Confusable(n', n)
  {
    forall r, r' | IsIfname(r) && IsIfname(r') && EndpointText(n, r) == EndpointText(n', r')
      ensures Confusable(n, n') || Confusable(n', n)
    {
      EqualTextsShift(n, r, n', r');
      EqualTextsShift(n', r', n, r);
    }
    if Confusable(n, n') {
      var r, r' := ConfusedNames(n, n');
    }
    if Confusable(n', n) {
      var r', r := ConfusedNames(n', n);
    }
  }

  lemma EqualTextsShift(n: Name, r: Name, n': Name, r': Name)
    requires EndpointText(n, r) == EndpointText(n', r') && IsIfname(r) && IsIfname(r')
    ensures |n.text| == |n'.text| ==> n == n' && r == r'
    ensures |n.text| < |n'.text| ==> Confusable(n, n')
  {
    var text := EndpointText(n, r);
    assert text[..|n.text|] == n.text && text[..|n.text| + 1] == n.text + ":";
    assert text[..|n'.text|] == n'.text;
    if |n.text| == |n'.text| {
      assert text[|n.text| + 1..] == r.text && text[|n'.text| + 1..] == r'.text;
    } else if |n.text| < |n'.text| {
      assert n'.text[..|n.text| + 1] == n.text + ":";
    }
  }

  lemma ConfusedNames(n: Name, n': Name) returns (r: Name, r': Name)
    requires Confusable(n, n')
    ensures IsIfname(r) && IsIfname(r') && EndpointText(n, r) == EndpointText(n', r')
  {
    var x := n'.text[|n.text| + 1..];
    assert n'.text == n.text + ":" + x;
    r, r' := Name(x + ":" + "e"), Name("e");
    assert (n.text + ":") + (x + ":" + "e") == (n.text + ":" + x) + ":" + "e";
  }

  /**
   * Once the maps are built no endpoint of any link fails to render, and unless their
   * node names are confusable two endpoints render alike only when they are the same
   * interface of the same node.
   */
  lemma EndpointsRenderDistinctly(site: Site, digest: string -> string, s: State, k: Name, k': Name, n: Name, n': Name)
    requires After(site, digest, Requests(site)) == Ok(s)
    requires k in site.links && n in site.links[k] && k' in site.links && n' in site.links[k']
    ensures (var (a, b) := (LinkEndpoint(s.eth, n, site.links[k][n]), LinkEndpoint(s.eth, n', site.links[k'][n']));
             && a.Ok? && b.Ok?
             && (!Confusable(n, n') && !Confusable(n', n) ==>
                   (a == b <==> n == n' && site.links[k][n] == site.links[k'][n'])))
  {
    var l, r := EndpointOfBuilt(site, digest, s, k, n);
    var l', r' := EndpointOfBuilt(site, digest, s, k', n');
    BuiltMapsAreInjectiveAndComplete(site, digest, s);
    if EndpointText(n, r) == EndpointText(n', r') {
      EqualTextsShift(n, r, n', r');
      EqualTextsShift(n', r', n, r);
    }
  }

  lemma EndpointOfBuilt(site: Site, digest: string -> string, s: State, k: Name, n: Name) returns (l: Name, r: Name)
    requires After(site, digest, Requests(site)) == Ok(s) && k in site.links && n in site.links[k]
    ensures site.links[k][n] == Some(l) && n in s.eth && l in s.eth[n] && s.eth[n][l] == r && IsIfname(r)
    ensures LinkEndpoint(s.eth, n, site.links[k][n]) == Ok(EndpointText(n, r))
  {
    BuiltMapsAreInjectiveAndComplete(site, digest, s);
    EndpointNamesInterface(site, digest, s, k, n);
    hide Needed, After, Requests;
    l := site.links[k][n].value;
    r := s.eth[n][l];
    assert MapsTo(s.eth, n, l, r);
  }

  /** No two endpoints of the site render alike. */
  ghost predicate RendersApart(site: Site, s: State) {
    forall k, k', n, n' | k in site.links && n in site.links[k] && k' in site.links && n' in site.links[k']
                          && (n, site.links[k][n]) != (n', site.links[k'][n']) ::
      LinkEndpoint(s.eth, n, site.links[k][n]) != LinkEndpoint(s.eth, n', site.links[k'][n'])
  }

  /**
   * Every site over given node names whose maps can be built renders its endpoints
   * apart if and only if no node name continues another one behind a colon.
   */
  lemma SitesRenderApartIff(names: set<Name>)
    ensures (forall site: Site, digest: string -> string, s: State |
               site.nodes.Keys == names && After(site, digest, Requests(site)) == Ok(s) :: RendersApart(site, s))
       <==> (forall n, n' | n in names && n' in names :: !Confusable(n, n'))
  {
    if forall n, n' | n in names && n' in names :: !Confusable(n, n') {
      forall site: Site, digest: string -> string, s: State |
        site.nodes.Keys == names && After(site, digest, Requests(site)) == Ok(s)
        ensures RendersApart(site, s)
      {
        AllRenderApart(site, digest, s);
      }
    } else {
      var n, n' :| n in names && n' in names && Confusable(n, n');
      var site, digest, s := ConfusedSite(names, n, n');
    }
  }

  lemma AllRenderApart(site: Site, digest: string -> string, s: State)
    requires After(site, digest, Requests(site)) == Ok(s)
    requires forall n, n' | n in site.nodes && n' in site.nodes :: !Confusable(n, n')
    ensures RendersApart(site, s)
  {
    hide After, Requests, Confusable;
    forall k, k', n, n' | k in site.links && n in site.links[k] && k' in site.links && n' in site.links[k']
                          && (n, site.links[k][n]) != (n', site.links[k'][n'])
      ensures LinkEndpoint(s.eth, n, site.links[k][n]) != LinkEndpoint(s.eth, n', site.links[k'][n'])
    {
      EndpointsRenderDistinctly(site, digest, s, k, k', n, n');
      EndpointNamesInterface(site, digest, s, k, n);
      EndpointNamesInterface(site, digest, s, k', n');
    }
  }

  const PORT := Name("p")
  const CABLE := Name("c")

  /** One cable between two nodes, each with one interface. */
  function TwoNodeSite(names: set<Name>, n: Name, r: Name, n': Name, r': Name): Site {
    Site(map m | m in names ::
           SiteNode(if m == n then map[PORT := Iface(OtherIface, Some(r))]
                    else if m == n' then map[PORT := Iface(OtherIface, Some(r'))]
                    else map[], []),
         map[CABLE := map[n := Some(PORT), n' := Some(PORT)]])
  }

  ghost predicate IsTwoNodeSite(site: Site, names: set<Name>, n: Name, r: Name, n': Name, r': Name) {
    && site.nodes.Keys == names && n in names && n' in names
    && (forall m | m in names :: site.nodes[m].pppoe == []
          && forall l | l in site.nodes[m].interfaces :: !NeedsMapping(site.nodes[m].interfaces[l]))
    && PORT in site.nodes[n].interfaces && site.nodes[n].interfaces[PORT].runtime == Some(r)
    && PORT in site.nodes[n'].interfaces && site.nodes[n'].interfaces[PORT].runtime == Some(r')
    && site.links.Keys == {CABLE} && site.links[CABLE].Keys == {n, n'}
    && site.links[CABLE][n] == site.links[CABLE][n'] == Some(PORT) && PORT.text != ""
  }

  /** The maps of a site with two confusable nodes can be built, and its two endpoints render alike. */
  lemma ConfusedSite(names: set<Name>, n: Name, n': Name) returns (site: Site, digest: string -> string, s: State)
    requires n in names && n' in names && Confusable(n, n')
    ensures site.nodes.Keys == names && After(site, digest, Requests(site)) == Ok(s)
    ensures !RendersApart(site, s)
  {
    assert n != n';
    var r, r' := ConfusedNames(n, n');
    hide TwoNodeSite, After, Requests, PORT, CABLE, Confusable;
    site, digest := TwoNodeSite(names, n, r, n', r'), text => text;
    TwoNodeSiteIs(names, n, r, n', r');
    TwoNodesBuilt(site, digest, names, n, r, n', r');
    s := After(site, digest, Requests(site)).value;
    hide TwoNodeSite;
    PortIsMapped(site, digest, s, n, r);
    PortIsMapped(site, digest, s, n', r');
    assert LinkEndpoint(s.eth, n, site.links[CABLE][n]) == LinkEndpoint(s.eth, n', site.links[CABLE][n']);
    hide LinkEndpoint, EndpointText, NeedsMapping;
  }

  lemma TwoNodeSiteIs(names: set<Name>, n: Name, r: Name, n': Name, r': Name)
    requires n in names && n' in names && n != n'
    ensures IsTwoNodeSite(TwoNodeSite(names, n, r, n', r'), names, n, r, n', r')
  {
  }

  lemma PortIsMapped(site: Site, digest: string -> string, s: State, n: Name, r: Name)
    requires IsIfname(r) && CABLE in site.links && n in site.links[CABLE] && site.links[CABLE][n] == Some(PORT)
    requires n in site.nodes && PORT in site.nodes[n].interfaces && site.nodes[n].interfaces[PORT].runtime == Some(r)
    ensures After(site, digest, Requests(site)) == Ok(s) ==>
              LinkEndpoint(s.eth, n, site.links[CABLE][n]) == Ok(EndpointText(n, r))
  {
    hide After, Requests, PORT, CABLE;
    if After(site, digest, Requests(site)) == Ok(s) {
      BuiltMapsAreInjectiveAndComplete(site, digest, s);
      var l, r0 := EndpointOfBuilt(site, digest, s, CABLE, n);
      hide LinkEndpoint, EndpointText, Needed;
      assert MapsTo(s.eth, n, PORT, r0);
    }
  }

  lemma TwoNodesBuilt(site: Site, digest: string -> string, names: set<Name>, n: Name, r: Name, n': Name, r': Name)
    requires IsTwoNodeSite(site, names, n, r, n', r') && n != n' && IsIfname(r) && IsIfname(r')
    ensures After(site, digest, Requests(site)).Ok?
  {
    hide Requests, HandleAll, PORT, CABLE;
    var all := Requests(site);
    assert TargetIfname(site, digest, n, PORT) == Ok(r) && TargetIfname(site, digest, n', PORT) == Ok(r');
    forall q | q in all
      ensures q == Request(n, Some(PORT)) || q == Request(n', Some(PORT))
    {
      TwoNodeRequests(site, names, n, r, n', r', q);
    }
    hide IsTwoNodeSite, TargetIfname;
    AtMostTwo(site, digest, all, Request(n, Some(PORT)), Request(n', Some(PORT)));
    HandleAllMeaning(site, digest, all, |all|);
  }

  lemma AtMostTwo(site: Site, digest: string -> string, all: seq<Request>, q: Request, q': Request)
    requires forall x | x in all :: x == q || x == q'
    requires Resolvable(site, digest, q) && Resolvable(site, digest, q') && q.node != q'.node
    ensures Buildable(site, digest, all, |all|)
  {
    hide Resolvable;
    assert forall i | 0 <= i < |all| :: all[i] in all;
  }

  lemma TwoNodeRequests(site: Site, names: set<Name>, n: Name, r: Name, n': Name, r': Name, q: Request)
    requires IsTwoNodeSite(site, names, n, r, n', r')
    ensures q in Requests(site) ==> q == Request(n, Some(PORT)) || q == Request(n', Some(PORT))
  {
    hide LinkRequests, AllNodeRequests, NodeRequests, IsTwoNodeSite, StrictlySorted, PORT, CABLE;
    var (links, nodes) := (SortedNames(site.links.Keys), SortedNames(site.nodes.Keys));
    if q in LinkRequests(site, links, |links|) {
      LinkRequestsAre(site, links, |links|, q);
      var i :| 0 <= i < |links| && LinkAsks(site, links[i], q);
      CableAsks(site, names, n, r, n', r', links[i], q);
    } else if q in AllNodeRequests(site, nodes, |nodes|) {
      AllNodeRequestsAre(site, nodes, |nodes|, q);
      var i :| 0 <= i < |nodes| && q in NodeRequests(nodes[i], site.nodes[nodes[i]]);
      assert nodes[i] in site.nodes;
      NodeAsksNothing(site, names, n, r, n', r', nodes[i], q);
    }
  }

  lemma CableAsks(site: Site, names: set<Name>, n: Name, r: Name, n': Name, r': Name, link: Name, q: Request)
    requires IsTwoNodeSite(site, names, n, r, n', r') && LinkAsks(site, link, q)
    ensures q == Request(n, Some(PORT)) || q == Request(n', Some(PORT))
  {
    hide PORT, CABLE, NeedsMapping;
    assert link == CABLE && (q.node == n || q.node == n');
  }

  lemma NodeAsksNothing(site: Site, names: set<Name>, n: Name, r: Name, n': Name, r': Name, m: Name, q: Request)
    requires IsTwoNodeSite(site, names, n, r, n', r') && m in site.nodes
    ensures q !in NodeRequests(m, site.nodes[m])
  {
    hide PORT, CABLE, NodeRequests;
    NodeRequestsAre(m, site.nodes[m], q);
  }

  lemma EndpointNamesInterface(site: Site, digest: string -> string, s: State, k: Name, n: Name)
    requires After(site, digest, Requests(site)) == Ok(s)
    requires k in site.links && n in site.links[k]
    ensures n in site.nodes && NonEmpty(site.links[k][n]).Some? && Needed(site, n, site.links[k][n].value)
  {
    var r := Request(n, NonEmpty(site.links[k][n]));
    EndpointIsRequested(site, k, r);
    BuiltRequestsResolve(site, digest, Requests(site), r);
    hide Requests, Needed, TargetIfname, After;
    RequestsAreTheNeeds(site, n, site.links[k][n].value);
  }

  lemma BuiltRequestsResolve(site: Site, digest: string -> string, all: seq<Request>, r: Request)
    requires After(site, digest, all).Ok? && r in all
    ensures Resolvable(site, digest, r)
  {
    HandleAllMeaning(site, digest, all, |all|);
    var i :| 0 <= i < |all| && all[i] == r;
    assert Resolvable(site, digest, all[i]);
  }

  lemma EndpointIsRequested(site: Site, k: Name, r: Request)
    requires LinkAsks(site, k, r)
    ensures r in Requests(site)
  {
    hide LinkRequests, AllNodeRequests, StrictlySorted;
    var (links, nodes) := (SortedNames(site.links.Keys), SortedNames(site.nodes.Keys));
    LinkRequestsAre(site, links, |links|, r);
    assert k in links;
    var j :| 0 <= j < |links| && links[j] == k;
  }

  // ---------------------------------------------------------------------- in fields

  /**
   * The interfaces that must be mapped: those an endpoint of a link names, the tenant and
   * overlay interfaces of a node, and those of its PPPoE services.
   */
  lemma NeededIff(site: Site, node: Name, logical: Name)
    ensures Needed(site, node, logical) <==>
              || (exists k ::
                    && k in site.links && node in site.links[k] && site.links[k][node] == Some(logical)
                    && logical.text != "")
              || (node in site.nodes
                  && (|| logical in site.nodes[node].pppoe
                      || (logical in site.nodes[node].interfaces
                          && site.nodes[node].interfaces[logical].kind in {TenantIface, OverlayIface})))
  {
    if k :|
      && k in site.links && node in site.links[k] && site.links[k][node] == Some(logical) && logical.text != ""
    {
      assert LinkAsks(site, k, Request(node, Some(logical)));
    }
  }

  /**
   * The runtime name of an interface: the one declared for it, if it has at most fifteen
   * characters, else the first fifteen of its digest behind "if-".
   */
  lemma TargetIff(site: Site, digest: string -> string, node: Name, logical: Name, target: Name)
    ensures TargetIfname(site, digest, node, logical) == Ok(target) <==>
              && node in site.nodes && logical in site.nodes[node].interfaces
              && site.nodes[node].interfaces[logical].runtime.Some?
              && (var declared := site.nodes[node].interfaces[logical].runtime.value.text;
                  && declared != ""
                  && (if |declared| <= 15 then target.text == declared
                      else target.text <= "if-" + digest(declared)
                           && |target.text| == (if |digest(declared)| <= 12 then 3 + |digest(declared)| else 15)))
  {
    if node in site.nodes && logical in site.nodes[node].interfaces
       && site.nodes[node].interfaces[logical].runtime.Some?
    {
      var declared := site.nodes[node].interfaces[logical].runtime.value.text;
      var short := "if-" + digest(declared);
      assert |short| == 3 + |digest(declared)|;
      assert target.text <= short && |short| <= 15 && |target.text| == |short| ==> target.text == short;
      assert target.text <= short && |target.text| == 15 ==> target.text == short[..15];
    }
  }

  /** A link endpoint that names nothing, or an empty interface, stops the build. */
  lemma EndpointMustName(site: Site, digest: string -> string, k: Name, node: Name)
    requires k in site.links && node in site.links[k]
    requires site.links[k][node].None? || site.links[k][node].value.text == ""
    ensures After(site, digest, Requests(site)).Err?
  {
    hide After, Requests;
    var r := Request(node, None);
    EndpointIsRequested(site, k, r);
    if After(site, digest, Requests(site)).Ok? {
      BuiltRequestsResolve(site, digest, Requests(site), r);
      assert false;
    }
  }
}
