/**
 * Relation policy selectors told in the fields of the raw selector, the node and the
 * interface map (clabgen/s88/CM/relation_selection_rules.py): which ones are accepted,
 * and what the rule of an accepted one says.
 */
module SelectorFields {
  import opened Common
  import opened Sorting
  import opened Addressing
  import opened NodeModel
  import opened PolicyGroups
  import opened RelationSelection

  /** Interface `n` is mapped and has the name, by its own, its runtime or its declared name. */
  predicate IsNamed(node: Node, ethMap: EthMap, value: Name, n: Name) {
    && n in node.interfaces && n in ethMap
    && (n == value || ethMap[n] == value || node.interfaces[n].declaredRuntime == Some(value))
  }

  /** The name is that of interface `n` and of no other. */
  ghost predicate Identifies(node: Node, ethMap: EthMap, value: Name, n: Name) {
    value.text != "" && IsNamed(node, ethMap, value, n) && forall m | IsNamed(node, ethMap, value, m) :: m == n
  }

  /** The prefix parses in the family, is no default, and names network `p`. */
  predicate NamesNetwork(c: Option<Cidr>, f: Family, p: Cidr) {
    c.Some? && c.value.ip.family == f && c.value.len > 0 && Valid(c.value) && p == Network(c.value)
  }

  function FamilyOf(s: RawSelector): Family {
    if s.family == 4 then V4 else V6
  }

  /** The policy-only route that the relation declares for the direction and destination. */
  predicate IsRelationRoute(r: Route, s: RawSelector, destination: Cidr) {
    && r.policyOnly && r.dst.Some? && Valid(r.dst.value) && Network(r.dst.value) == destination
    && r.relationId == s.relationId == r.intent.relationId
    && r.intent.direction == s.direction && r.intent.policyStateOwner == s.policyStateOwner
    && r.intent.kind == "relation-policy-reachability"
    && r.returnBehavior == s.returnBehavior && r.trafficType == s.trafficType
  }

  ghost predicate HasOne(routes: seq<Route>, s: RawSelector, destination: Cidr) {
    exists j :: 0 <= j < |routes| && IsRelationRoute(routes[j], s, destination)
                && forall k | 0 <= k < |routes| && k != j :: !IsRelationRoute(routes[k], s, destination)
  }

  /** What the selector itself must say. */
  predicate WellStated(s: RawSelector) {
    && s.authority == "relation-policy-state-owner" && (s.family == 4 || s.family == 6)
    && (s.direction == "forward" || s.direction == "return") && s.returnBehavior == "symmetric"
    && s.relationId != "" && s.policyStateOwner != "" && s.service != "" && s.trafficType != ""
    && s.tableId >= 1 && s.priority >= 1 && s.relationPriority >= 1
  }

  /** Interface `m` owns the selector's table, at a number behind the selector's, and has its one route. */
  ghost predicate OwnsTable(node: Node, s: RawSelector, m: Name, destination: Cidr)
    requires m in node.interfaces
  {
    var iface := node.interfaces[m];
    && iface.allocation.Some?
    && iface.allocation.value.source == ControlPlaneModel && iface.allocation.value.tableId == s.tableId
    && iface.allocation.value.tableRulePriority.Some? && s.priority < iface.allocation.value.tableRulePriority.value
    && HasOne(if s.family == 4 then iface.routes4 else iface.routes6, s, destination)
  }

  /** Selector `s` is accepted by itself, and `x` is its rule. */
  ghost predicate Says(node: Node, ethMap: EthMap, s: RawSelector, x: SelectorRule) {
    && WellStated(s)
    && (exists n :: Identifies(node, ethMap, s.incomingInterface, n) && n in ethMap && x.iif == ethMap[n])
    && (exists m :: Identifies(node, ethMap, s.policyInterface, m) && m in node.interfaces
                    && OwnsTable(node, s, m, x.destination))
    && x.family == FamilyOf(s) && x.priority == s.priority && x.table == s.tableId
    && NamesNetwork(s.sourcePrefix, x.family, x.source) && NamesNetwork(s.destinationPrefix, x.family, x.destination)
  }

  // ------------------------------------------------------------- what is computed

  lemma IdentityIff(node: Node, ethMap: EthMap, value: Name, n: Name)
    ensures InterfaceForIdentity(node, ethMap, value) == Some(n) <==> Identifies(node, ethMap, value, n)
  {
    var matches := set n | n in node.interfaces && n in ethMap
                           && (value == n || value == ethMap[n] || node.interfaces[n].declaredRuntime == Some(value));
    var names := SortedNames(matches);
    assert forall m :: m in names <==> IsNamed(node, ethMap, value, m);
    hide IsNamed;
    if |names| == 1 {
      assert names[0] in names;
      assert forall m | m in names :: m == names[0];
    } else if |names| > 1 {
      assert names[0] in names && names[1] in names && names[0] != names[1];
    }
  }

  ghost predicate HasNone(routes: seq<Route>, s: RawSelector, destination: Cidr) {
    forall k | 0 <= k < |routes| :: !IsRelationRoute(routes[k], s, destination)
  }

  lemma NoneStep(routes: seq<Route>, s: RawSelector, destination: Cidr)
    requires routes != []
    ensures HasNone(routes, s, destination)
       <==> !IsRelationRoute(routes[0], s, destination) && HasNone(routes[1..], s, destination)
  {
    hide IsRelationRoute;
    assert forall k | 1 <= k < |routes| :: routes[k] == routes[1..][k - 1];
  }

  lemma OneStep(routes: seq<Route>, s: RawSelector, destination: Cidr)
    requires routes != []
    ensures HasOne(routes, s, destination)
       <==> if IsRelationRoute(routes[0], s, destination) then HasNone(routes[1..], s, destination)
            else HasOne(routes[1..], s, destination)
  {
    hide IsRelationRoute;
    var rest := routes[1..];
    if HasOne(routes, s, destination) {
      OneInRest(routes, s, destination);
    }
    if !IsRelationRoute(routes[0], s, destination) && HasOne(rest, s, destination) {
      OneInAll(routes, s, destination);
    }
    if IsRelationRoute(routes[0], s, destination) && HasNone(rest, s, destination) {
      FirstIsOne(routes, s, destination);
    }
  }

  lemma FirstIsOne(routes: seq<Route>, s: RawSelector, destination: Cidr)
    requires routes != [] && IsRelationRoute(routes[0], s, destination) && HasNone(routes[1..], s, destination)
    ensures HasOne(routes, s, destination)
  {
    hide IsRelationRoute;
    assert forall k | 1 <= k < |routes| :: routes[k] == routes[1..][k - 1];
  }

  lemma OneInRest(routes: seq<Route>, s: RawSelector, destination: Cidr)
    requires routes != [] && HasOne(routes, s, destination)
    ensures if IsRelationRoute(routes[0], s, destination) then HasNone(routes[1..], s, destination)
            else HasOne(routes[1..], s, destination)
  {
    hide IsRelationRoute;
    var rest := routes[1..];
    var j :| 0 <= j < |routes| && IsRelationRoute(routes[j], s, destination)
             && forall k | 0 <= k < |routes| && k != j :: !IsRelationRoute(routes[k], s, destination);
    assert forall k | 0 <= k < |rest| :: rest[k] == routes[k + 1];
    if j > 0 {
      assert rest[j - 1] == routes[j];
    }
  }

  lemma OneInAll(routes: seq<Route>, s: RawSelector, destination: Cidr)
    requires routes != [] && !IsRelationRoute(routes[0], s, destination) && HasOne(routes[1..], s, destination)
    ensures HasOne(routes, s, destination)
  {
    hide IsRelationRoute;
    var rest := routes[1..];
    var j :| 0 <= j < |rest| && IsRelationRoute(rest[j], s, destination)
             && forall k | 0 <= k < |rest| && k != j :: !IsRelationRoute(rest[k], s, destination);
    assert routes[j + 1] == rest[j];
    assert forall k | 1 <= k < |routes| :: routes[k] == rest[k - 1];
  }

  lemma {:induction false} OneIff(routes: seq<Route>, s: RawSelector, destination: Cidr)
    ensures MatchCount(routes, s, destination) == 0 <==> HasNone(routes, s, destination)
    ensures MatchCount(routes, s, destination) == 1 <==> HasOne(routes, s, destination)
  {
    hide RouteMatchesSelector, IsRelationRoute;
    if routes != [] {
      OneIff(routes[1..], s, destination);
      MatchIff(routes[0], s, destination);
      NoneStep(routes, s, destination);
      OneStep(routes, s, destination);
    }
  }

  lemma MatchIff(r: Route, s: RawSelector, destination: Cidr)
    ensures RouteMatchesSelector(r, s, destination) <==> IsRelationRoute(r, s, destination)
  {
    hide Network, Valid;
  }

  lemma PrefixIff(c: Option<Cidr>, f: Family, p: Cidr)
    ensures Prefix(c, f) == Some(p) <==> NamesNetwork(c, f, p)
  {
    hide Network, Valid;
  }

  /** Acceptance of one selector, and its rule, are exactly what the fields say. */
  lemma SelectorIff(node: Node, ethMap: EthMap, s: RawSelector, x: SelectorRule)
    ensures (var v := ValidateSelector(node, ethMap, s); v.Ok? && RuleOfSelector(v.value) == x)
       <==> Says(node, ethMap, s, x)
  {
    hide InterfaceForIdentity, Identifies, MatchCount, HasOne, Prefix, NamesNetwork;
    forall n
      ensures InterfaceForIdentity(node, ethMap, s.incomingInterface) == Some(n)
         <==> Identifies(node, ethMap, s.incomingInterface, n)
      ensures InterfaceForIdentity(node, ethMap, s.policyInterface) == Some(n)
         <==> Identifies(node, ethMap, s.policyInterface, n)
    {
      IdentityIff(node, ethMap, s.incomingInterface, n);
      IdentityIff(node, ethMap, s.policyInterface, n);
    }
    IdentifiedAreMapped(node, ethMap, s);
    var f := FamilyOf(s);
    forall p
      ensures Prefix(s.sourcePrefix, f) == Some(p) <==> NamesNetwork(s.sourcePrefix, f, p)
      ensures Prefix(s.destinationPrefix, f) == Some(p) <==> NamesNetwork(s.destinationPrefix, f, p)
    {
      PrefixIff(s.sourcePrefix, f, p);
      PrefixIff(s.destinationPrefix, f, p);
    }
    var policy := InterfaceForIdentity(node, ethMap, s.policyInterface);
    if policy.Some? {
      OneIff(Routes(node.interfaces[policy.value], f), s, x.destination);
    }
  }

  lemma IdentifiedAreMapped(node: Node, ethMap: EthMap, s: RawSelector)
    ensures forall n | Identifies(node, ethMap, s.incomingInterface, n) :: n in node.interfaces && n in ethMap
    ensures forall n | Identifies(node, ethMap, s.policyInterface, n) :: n in node.interfaces && n in ethMap
  {
  }

  // ------------------------------------------------------------------- all selectors

  predicate SameRelation(raw: seq<RawSelector>, i: nat, k: nat) {
    i < |raw| && k < |raw| && raw[k].relationId == raw[i].relationId && raw[k].family == raw[i].family
  }

  /** Selectors `i` and `j` are the two directions of one relation and family, and no other selector is of those. */
  ghost predicate IsPair(raw: seq<RawSelector>, xs: seq<SelectorRule>, i: nat, j: nat)
    requires |xs| == |raw| && i < |raw|
  {
    && j != i && SameRelation(raw, i, j)
    && raw[j].direction != raw[i].direction && raw[j].policyStateOwner == raw[i].policyStateOwner
    && xs[j].source == xs[i].destination && xs[j].destination == xs[i].source
    && forall k: nat | SameRelation(raw, i, k) :: k == i || k == j
  }

  ghost predicate HasPair(raw: seq<RawSelector>, xs: seq<SelectorRule>, i: nat)
    requires |xs| == |raw| && i < |raw|
  {
    exists j: nat :: IsPair(raw, xs, i, j)
  }

  /** The selectors say what `xs` lists, each has its partner. */
  ghost predicate AllSay(node: Node, ethMap: EthMap, raw: seq<RawSelector>, xs: seq<SelectorRule>) {
    && |xs| == |raw| && (forall i | 0 <= i < |raw| :: Says(node, ethMap, raw[i], xs[i]))
    && (forall i: nat | i < |raw| :: HasPair(raw, xs, i))
  }

  /** What an accepted selector keeps of its raw form besides its rule. */
  lemma SelectorKeeps(node: Node, ethMap: EthMap, s: RawSelector)
    ensures (var v := ValidateSelector(node, ethMap, s);
             v.Ok? ==>
               && v.value.relationId == s.relationId && v.value.policyStateOwner == s.policyStateOwner
               && v.value.family == FamilyOf(s) && (s.family == 4 || s.family == 6)
               && (v.value.direction == Forward <==> s.direction == "forward")
               && (s.direction == "forward" || s.direction == "return"))
  {
    hide InterfaceForIdentity, MatchCount, Prefix;
  }

  function RulesOf(selectors: seq<Selector>): seq<SelectorRule> {
    seq(|selectors|, i requires 0 <= i < |selectors| => RuleOfSelector(selectors[i]))
  }

  lemma PairIff(node: Node, ethMap: EthMap, raw: seq<RawSelector>, selectors: seq<Selector>, i: nat, j: nat)
    requires |selectors| == |raw| && i < |raw|
    requires forall k | 0 <= k < |raw| :: ValidateSelector(node, ethMap, raw[k]) == Ok(selectors[k])
    ensures Partners(selectors, i, j) <==> IsPair(raw, RulesOf(selectors), i, j)
  {
    hide ValidateSelector;
    forall k | 0 <= k < |raw|
      ensures selectors[k].relationId == raw[k].relationId && selectors[k].policyStateOwner == raw[k].policyStateOwner
      ensures selectors[k].family == FamilyOf(raw[k]) && (raw[k].family == 4 || raw[k].family == 6)
      ensures selectors[k].direction == Forward <==> raw[k].direction == "forward"
      ensures raw[k].direction == "forward" || raw[k].direction == "return"
    {
      SelectorKeeps(node, ethMap, raw[k]);
    }
    assert forall k: nat :: SameGroup(selectors, i, k) <==> SameRelation(raw, i, k);
  }

  /** All selectors are accepted exactly when they say their rules and pair up; then the rendered rules are those. */
  lemma AcceptedIff(node: Node, ethMap: EthMap, raw: seq<RawSelector>)
    ensures (exists selectors :: Accepted(node, ethMap, raw, selectors)) <==> exists xs :: AllSay(node, ethMap, raw, xs)
  {
    hide ValidateSelector, Says, Partners, IsPair;
    if selectors :| Accepted(node, ethMap, raw, selectors) {
      AcceptedSay(node, ethMap, raw, selectors);
    }
    if xs :| AllSay(node, ethMap, raw, xs) {
      var selectors := ValidatedAll(node, ethMap, raw, xs);
      assert RulesOf(selectors) == xs;
      forall i: nat | i < |raw|
        ensures HasPartner(selectors, i)
      {
        assert HasPair(raw, xs, i);
        var j: nat :| IsPair(raw, xs, i, j);
        PairIff(node, ethMap, raw, selectors, i, j);
      }
      assert Accepted(node, ethMap, raw, selectors);
    }
  }

  lemma AcceptedSay(node: Node, ethMap: EthMap, raw: seq<RawSelector>, selectors: seq<Selector>)
    requires Accepted(node, ethMap, raw, selectors)
    ensures AllSay(node, ethMap, raw, RulesOf(selectors))
  {
    hide ValidateSelector, Says, Partners, IsPair;
    var xs := RulesOf(selectors);
    forall i: nat | i < |raw|
      ensures Says(node, ethMap, raw[i], xs[i])
      ensures HasPair(raw, xs, i)
    {
      assert HasPartner(selectors, i);
      SelectorIff(node, ethMap, raw[i], xs[i]);
      var j: nat :| Partners(selectors, i, j);
      PairIff(node, ethMap, raw, selectors, i, j);
    }
  }

  lemma {:induction false} ValidatedAll(node: Node, ethMap: EthMap, raw: seq<RawSelector>, xs: seq<SelectorRule>)
      returns (selectors: seq<Selector>)
    requires |xs| == |raw| && forall i | 0 <= i < |raw| :: Says(node, ethMap, raw[i], xs[i])
    ensures |selectors| == |raw|
    ensures forall i | 0 <= i < |raw| ::
              ValidateSelector(node, ethMap, raw[i]) == Ok(selectors[i]) && RuleOfSelector(selectors[i]) == xs[i]
  {
    hide ValidateSelector, Says;
    selectors := [];
    for i := 0 to |raw|
      invariant |selectors| == i
      invariant forall k | 0 <= k < i ::
                  ValidateSelector(node, ethMap, raw[k]) == Ok(selectors[k]) && RuleOfSelector(selectors[k]) == xs[k]
    {
      SelectorIff(node, ethMap, raw[i], xs[i]);
      selectors := selectors + [ValidateSelector(node, ethMap, raw[i]).value];
    }
  }

  /** The rendered rules are exactly those the selectors say. */
  lemma RenderedIff(
      node: Node, ethMap: EthMap, raw: seq<RawSelector>, selectors: seq<Selector>, rules: seq<SelectorRule>,
      x: SelectorRule)
    requires Accepted(node, ethMap, raw, selectors) && RendersSelectors(selectors, rules)
    ensures x in rules <==> exists s :: s in raw && Says(node, ethMap, s, x)
  {
    hide ValidateSelector, Says, HasPartner;
    if x in rules {
      var v :| v in selectors && x == RuleOfSelector(v);
      var i :| 0 <= i < |selectors| && selectors[i] == v;
      SelectorIff(node, ethMap, raw[i], x);
      assert raw[i] in raw;
    }
    if s :| s in raw && Says(node, ethMap, s, x) {
      var i :| 0 <= i < |raw| && raw[i] == s;
      SelectorIff(node, ethMap, s, x);
      assert selectors[i] in selectors;
    }
  }
}
