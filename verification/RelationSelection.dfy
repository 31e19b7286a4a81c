/**
 * Relation policy selectors (clabgen/s88/CM/relation_selection_rules.py): each raw
 * selector is validated against the node, the accepted ones must pair up as forward
 * and return of one relation, and each becomes one rule.
 */
module RelationSelection {
  import opened Common
  import opened Sorting
  import opened Addressing
  import opened NodeModel
  import opened PolicyGroups
  import opened PolicyLanes

  /** A `routeSelectionRules` entry; a missing string is empty, a missing or unparsable prefix is None. */
  datatype RawSelector = RawSelector(
    authority: string, family: int, direction: string, returnBehavior: string, relationId: string,
    policyStateOwner: string, service: string, trafficType: string, tableId: int, priority: int,
    relationPriority: int, sourcePrefix: Option<Cidr>, destinationPrefix: Option<Cidr>,
    incomingInterface: Name, policyInterface: Name)

  datatype Direction = Forward | Return

  datatype Selector = Selector(
    direction: Direction, family: Family, incomingRuntime: Name, policyStateOwner: string, priority: int,
    relationId: string, source: Cidr, destination: Cidr, tableId: int)

  datatype ContractError =
    | UnsupportedAuthority | BadFamily | BadDirection | BadReturnBehavior | MissingField | NotPositiveInt
    | BadPrefix | UnresolvedInterface | NoTableAllocation | TableNotOwned | TableDiffers
    | DoesNotPrecede | RouteCount | PairShape | PairStatePath

  // ------------------------------------------------------------------ one selector

  /** The one interface whose logical, rendered or declared name is `value`. */
  function InterfaceForIdentity(node: Node, ethMap: EthMap, value: Name): (r: Option<Name>)
    ensures r.Some? ==> r.value in node.interfaces && r.value in ethMap
  {
    var matches := set n | n in node.interfaces && n in ethMap
                           && (value == n || value == ethMap[n] || node.interfaces[n].declaredRuntime == Some(value));
    var names := SortedNames(matches);
    if value.text != "" && |names| == 1 then Some(names[0]) else None
  }

  function Prefix(c: Option<Cidr>, f: Family): Option<Cidr> {
    if c.Some? && Valid(c.value) && c.value.ip.family == f && c.value.len != 0 then Some(Network(c.value)) else None
  }

  predicate RouteMatchesSelector(route: Route, s: RawSelector, destination: Cidr) {
    && route.dst.Some? && Valid(route.dst.value) && Network(route.dst.value) == destination
    && route.policyOnly
    && route.relationId == s.relationId && route.returnBehavior == s.returnBehavior
    && route.trafficType == s.trafficType
    && route.intent.kind == "relation-policy-reachability" && route.intent.direction == s.direction
    && route.intent.relationId == s.relationId && route.intent.policyStateOwner == s.policyStateOwner
  }

  function MatchCount(routes: seq<Route>, s: RawSelector, destination: Cidr): nat {
    if routes == [] then 0
    else (if RouteMatchesSelector(routes[0], s, destination) then 1 else 0) + MatchCount(routes[1..], s, destination)
  }

  function ValidateSelector(node: Node, ethMap: EthMap, s: RawSelector): Result<Selector, ContractError> {
    if s.authority != "relation-policy-state-owner" then Err(UnsupportedAuthority)
    else if s.family !in {4, 6} then Err(BadFamily)
    else if s.direction !in {"forward", "return"} then Err(BadDirection)
    else if s.returnBehavior != "symmetric" then Err(BadReturnBehavior)
    else if "" in {s.relationId, s.policyStateOwner, s.service, s.trafficType} then Err(MissingField)
    else if s.tableId <= 0 || s.priority <= 0 || s.relationPriority <= 0 then Err(NotPositiveInt)
    else
      var f := if s.family == 4 then V4 else V6;
      var (source, destination) := (Prefix(s.sourcePrefix, f), Prefix(s.destinationPrefix, f));
      if source.None? || destination.None? then Err(BadPrefix)
      else
        var incoming := InterfaceForIdentity(node, ethMap, s.incomingInterface);
        var policy := InterfaceForIdentity(node, ethMap, s.policyInterface);
        if incoming.None? || policy.None? then Err(UnresolvedInterface)
        else
          var iface := node.interfaces[policy.value];
          if iface.allocation.None? then Err(NoTableAllocation)
          else
            var a := iface.allocation.value;
            if a.source != ControlPlaneModel then Err(TableNotOwned)
            else if a.tableId != s.tableId then Err(TableDiffers)
            else if a.tableRulePriority.None? || a.tableRulePriority.value <= 0 then Err(NotPositiveInt)
            else if s.priority >= a.tableRulePriority.value then Err(DoesNotPrecede)
            else if MatchCount(Routes(iface, f), s, destination.value) != 1 then Err(RouteCount)
            else Ok(Selector(if s.direction == "forward" then Forward else Return, f, ethMap[incoming.value],
                             s.policyStateOwner, s.priority, s.relationId, source.value, destination.value, s.tableId))
  }

  /**
   * An accepted selector sends to the table of its policy interface at a priority that
   * strictly precedes the lane row of that interface.
   */
  lemma SelectorPrecedesItsLane(node: Node, ethMap: EthMap, s: RawSelector, row: LaneRow)
    requires ValidNode(node) && IsSurface(node, ethMap, row.ifname)
    requires InterfaceForIdentity(node, ethMap, s.policyInterface) == Some(row.ifname)
    ensures (var v := ValidateSelector(node, ethMap, s);
             v.Ok? && RowOf(node, ethMap, row.ifname) == Ok(row) ==>
               v.value.tableId == row.table && 0 < v.value.priority < row.priority)
  {
    hide GroupsOf, SharedInterfaces, MatchCount, InterfaceForIdentity, Prefix, IsPolicyRoutingSurface, ValidNode;
  }

  /** Prefixes of accepted selectors carry no host bits, are of the selector's family and never the default. */
  lemma SelectorPrefixesAreBounded(node: Node, ethMap: EthMap, s: RawSelector)
    requires ValidateSelector(node, ethMap, s).Ok?
    ensures var v := ValidateSelector(node, ethMap, s).value;
            && NormalizePrefix(v.source) == v.source && NormalizePrefix(v.destination) == v.destination
            && v.source.ip.family == v.family == v.destination.ip.family
            && !IsDefault(v.source) && !IsDefault(v.destination)
  {
    NormalizePrefixIdempotent(s.sourcePrefix.value);
    NormalizePrefixIdempotent(s.destinationPrefix.value);
  }

  // -------------------------------------------------------------- direction pairs

  type GroupKey = (string, Family)

  function GroupKeyOf(s: Selector): GroupKey {
    (s.relationId, s.family)
  }

  /** The selectors of one relation and family among the first `count`. */
  function GroupOf(selectors: seq<Selector>, key: GroupKey, count: nat): seq<Selector>
    requires count <= |selectors|
  {
    if count == 0 then []
    else
      var rest := GroupOf(selectors, key, count - 1);
      if GroupKeyOf(selectors[count - 1]) == key then rest + [selectors[count - 1]] else rest
  }

  /** One forward and one return selector that mirror each other and share their state owner. */
  predicate Mirrored(a: Selector, b: Selector) {
    && a.direction != b.direction
    && a.source == b.destination && a.destination == b.source && a.policyStateOwner == b.policyStateOwner
  }

  function CheckGroup(group: seq<Selector>): Result<(), ContractError> {
    if |group| != 2 || group[0].direction == group[1].direction then Err(PairShape)
    else if !Mirrored(group[0], group[1]) then Err(PairStatePath)
    else Ok(())
  }

  predicate GroupAccepted(selectors: seq<Selector>, key: GroupKey) {
    CheckGroup(GroupOf(selectors, key, |selectors|)).Ok?
  }

  lemma {:induction false} GroupNonEmpty(selectors: seq<Selector>, key: GroupKey, count: nat)
    requires count <= |selectors|
    ensures GroupOf(selectors, key, count) != [] <==> exists i :: 0 <= i < count && GroupKeyOf(selectors[i]) == key
    decreases count
  {
    if count > 0 {
      GroupNonEmpty(selectors, key, count - 1);
    }
  }

  method ValidateDirectionPairs(selectors: seq<Selector>) returns (r: Result<(), ContractError>)
    ensures r.Ok? <==> forall i | 0 <= i < |selectors| :: GroupAccepted(selectors, GroupKeyOf(selectors[i]))
  {
    var groups: map<GroupKey, seq<Selector>> := map[];
    var order: seq<GroupKey> := [];
    for i := 0 to |selectors|
      invariant forall k :: k in groups <==> k in order
      invariant forall k :: k !in groups ==> GroupOf(selectors, k, i) == []
      invariant forall k | k in groups :: groups[k] == GroupOf(selectors, k, i) != []
    {
      var key := GroupKeyOf(selectors[i]);
      if key !in groups {
        order := order + [key];
        groups := groups[key := [selectors[i]]];
      } else {
        groups := groups[key := groups[key] + [selectors[i]]];
      }
    }
    for i := 0 to |order|
      invariant forall j | 0 <= j < i :: GroupAccepted(selectors, order[j])
    {
      var check := CheckGroup(groups[order[i]]);
      if check.Err? {
        GroupNonEmpty(selectors, order[i], |selectors|);
        return check;
      }
    }
    forall i | 0 <= i < |selectors|
      ensures GroupAccepted(selectors, GroupKeyOf(selectors[i]))
    {
      GroupNonEmpty(selectors, GroupKeyOf(selectors[i]), |selectors|);
      assert GroupKeyOf(selectors[i]) in order;
    }
    return Ok(());
  }

  predicate SameGroup(selectors: seq<Selector>, i: nat, j: nat) {
    i < |selectors| && j < |selectors| && GroupKeyOf(selectors[i]) == GroupKeyOf(selectors[j])
  }

  ghost predicate Partners(selectors: seq<Selector>, i: nat, j: nat) {
    && i != j && SameGroup(selectors, i, j) && Mirrored(selectors[i], selectors[j])
    && forall k: nat :: SameGroup(selectors, i, k) ==> k == i || k == j
  }

  ghost predicate HasPartner(selectors: seq<Selector>, i: nat) {
    exists j: nat :: Partners(selectors, i, j)
  }

  /**
   * The pairs are accepted exactly when partnership is a fixed-point-free involution:
   * every selector has exactly one other selector of its relation and family, and the
   * two mirror each other.
   */
  lemma AcceptedPairsAreAnInvolution(selectors: seq<Selector>)
    ensures (forall i | 0 <= i < |selectors| :: GroupAccepted(selectors, GroupKeyOf(selectors[i])))
       <==> (forall i: nat | i < |selectors| :: HasPartner(selectors, i))
    ensures forall i: nat, j: nat :: Partners(selectors, i, j) ==> i != j && Partners(selectors, j, i)
    ensures forall i: nat, j: nat, k: nat :: Partners(selectors, i, j) && Partners(selectors, i, k) ==> j == k
  {
    forall i: nat | i < |selectors|
      ensures GroupAccepted(selectors, GroupKeyOf(selectors[i])) <==> HasPartner(selectors, i)
    {
      PairAt(selectors, i);
    }
    hide GroupAccepted, HasPartner;
    forall i: nat, j: nat | Partners(selectors, i, j)
      ensures Partners(selectors, j, i)
    {
      assert forall k: nat :: SameGroup(selectors, j, k) ==> SameGroup(selectors, i, k);
    }
  }

  /** `p` lists the positions of a group in increasing order. */
  ghost predicate ArePositions(selectors: seq<Selector>, key: GroupKey, count: nat, p: seq<nat>)
    requires count <= |selectors|
  {
    && |p| == |GroupOf(selectors, key, count)|
    && (forall a | 0 <= a < |p| :: p[a] < count && GroupKeyOf(selectors[p[a]]) == key)
    && (forall a | 0 <= a < |p| :: GroupOf(selectors, key, count)[a] == selectors[p[a]])
    && (forall a, b | 0 <= a < b < |p| :: p[a] < p[b])
    && (forall i: nat | i < count && GroupKeyOf(selectors[i]) == key :: i in p)
  }

  lemma {:induction false} GroupPositions(selectors: seq<Selector>, key: GroupKey, count: nat) returns (p: seq<nat>)
    requires count <= |selectors|
    ensures ArePositions(selectors, key, count, p)
    decreases count
  {
    if count == 0 {
      p := [];
    } else {
      var rest := GroupPositions(selectors, key, count - 1);
      if GroupKeyOf(selectors[count - 1]) == key {
        p := rest + [count - 1];
      } else {
        p := rest;
      }
      hide GroupKeyOf;
      PositionsStep(selectors, key, count, rest, p);
    }
  }

  lemma PositionsStep(selectors: seq<Selector>, key: GroupKey, count: nat, rest: seq<nat>, p: seq<nat>)
    requires 0 < count <= |selectors| && ArePositions(selectors, key, count - 1, rest)
    requires p == if GroupKeyOf(selectors[count - 1]) == key then rest + [count - 1] else rest
    ensures ArePositions(selectors, key, count, p)
  {
    hide GroupKeyOf, ArePositions;
    if GroupKeyOf(selectors[count - 1]) == key {
      assert GroupOf(selectors, key, count) == GroupOf(selectors, key, count - 1) + [selectors[count - 1]];
      hide GroupOf;
      PositionAdded(selectors, key, count, rest);
    } else {
      assert GroupOf(selectors, key, count) == GroupOf(selectors, key, count - 1);
      hide GroupOf;
      PositionsStay(selectors, key, count, rest);
    }
  }

  lemma PositionsStay(selectors: seq<Selector>, key: GroupKey, count: nat, p: seq<nat>)
    requires 0 < count <= |selectors| && ArePositions(selectors, key, count - 1, p)
    requires GroupKeyOf(selectors[count - 1]) != key
    requires GroupOf(selectors, key, count) == GroupOf(selectors, key, count - 1)
    ensures ArePositions(selectors, key, count, p)
  {
    hide GroupKeyOf, GroupOf;
  }

  lemma PositionAdded(selectors: seq<Selector>, key: GroupKey, count: nat, rest: seq<nat>)
    requires 0 < count <= |selectors| && ArePositions(selectors, key, count - 1, rest)
    requires GroupKeyOf(selectors[count - 1]) == key
    requires GroupOf(selectors, key, count) == GroupOf(selectors, key, count - 1) + [selectors[count - 1]]
    ensures ArePositions(selectors, key, count, rest + [count - 1])
  {
    hide GroupKeyOf, GroupOf;
    var p := rest + [count - 1];
    forall a | 0 <= a < |p|
      ensures p[a] < count && GroupKeyOf(selectors[p[a]]) == key
      ensures GroupOf(selectors, key, count)[a] == selectors[p[a]]
      ensures a > 0 ==> p[a - 1] < p[a]
    {
    }
    forall i: nat | i < count && GroupKeyOf(selectors[i]) == key
      ensures i in p
    {
      if i < count - 1 {
        assert i in rest;
      }
    }
    forall a, b | 0 <= a < b < |p|
      ensures p[a] < p[b]
    {
      if b < |rest| {
        assert p[a] == rest[a] && p[b] == rest[b];
      }
    }
  }

  lemma PairAt(selectors: seq<Selector>, i: nat)
    requires i < |selectors|
    ensures GroupAccepted(selectors, GroupKeyOf(selectors[i])) <==> HasPartner(selectors, i)
  {
    var p := GroupPositions(selectors, GroupKeyOf(selectors[i]), |selectors|);
    assert i in p;
    if |p| == 2 {
      assert p == [p[0], p[1]];
      var j := if i == p[0] then p[1] else p[0];
      assert SameGroup(selectors, i, j);
      assert forall k: nat | SameGroup(selectors, i, k) :: k in p;
      assert HasPartner(selectors, i) <==> Partners(selectors, i, j);
    } else {
      if j: nat :| Partners(selectors, i, j) {
        PairHasTwoPositions(selectors, i, j, p);
      }
    }
  }

  lemma PairHasTwoPositions(selectors: seq<Selector>, i: nat, j: nat, p: seq<nat>)
    requires Partners(selectors, i, j) && i in p && j in p
    requires forall a | 0 <= a < |p| :: SameGroup(selectors, i, p[a])
    requires forall a, b | 0 <= a < b < |p| :: p[a] < p[b]
    ensures |p| == 2
  {
    var a :| 0 <= a < |p| && p[a] == i;
    var b :| 0 <= b < |p| && p[b] == j;
    assert forall c | 0 <= c < |p| :: p[c] == i || p[c] == j;
    assert p[0] < p[1] <= p[|p| - 1];
  }

  // ------------------------------------------------------------------------ rendering

  /** `rule add from source to destination iif iif priority priority table table`. */
  datatype SelectorRule = SelectorRule(
    family: Family, source: Cidr, destination: Cidr, iif: Name, priority: int, table: int)

  function RuleOfSelector(s: Selector): SelectorRule {
    SelectorRule(s.family, s.source, s.destination, s.incomingRuntime, s.priority, s.tableId)
  }

  /** Every raw selector validates to the selector at its position, and each of those has a partner. */
  ghost predicate Accepted(node: Node, ethMap: EthMap, raw: seq<RawSelector>, selectors: seq<Selector>) {
    && |selectors| == |raw|
    && (forall i | 0 <= i < |raw| :: ValidateSelector(node, ethMap, raw[i]) == Ok(selectors[i]))
    && (forall i: nat | i < |selectors| :: HasPartner(selectors, i))
  }

  /** The rules of the accepted selectors, each rule once. */
  ghost predicate RendersSelectors(selectors: seq<Selector>, rules: seq<SelectorRule>) {
    && (forall x :: x in rules <==> exists s | s in selectors :: x == RuleOfSelector(s))
    && (forall i, j | 0 <= i < j < |rules| :: rules[i] != rules[j])
  }

  method RenderRelationSelectionRules(node: Node, ethMap: EthMap, raw: seq<RawSelector>)
      returns (r: Result<seq<SelectorRule>, ContractError>, ghost selectors: seq<Selector>)
    ensures r.Ok? ==> Accepted(node, ethMap, raw, selectors) && RendersSelectors(selectors, r.value)
    ensures r.Err? ==> forall s :: !Accepted(node, ethMap, raw, s)
  {
    hide ValidateSelector, HasPartner, GroupAccepted, RendersSelectors;
    selectors := [];
    var accepted: seq<Selector> := [];
    for i := 0 to |raw|
      invariant selectors == accepted && |accepted| == i
      invariant forall k | 0 <= k < i :: ValidateSelector(node, ethMap, raw[k]) == Ok(accepted[k])
    {
      var v := ValidateSelector(node, ethMap, raw[i]);
      if v.Err? {
        return Err(v.error), selectors;
      }
      accepted := accepted + [v.value];
      selectors := accepted;
    }
    var pairs := ValidateDirectionPairs(accepted);
    AcceptedPairsAreAnInvolution(accepted);
    if pairs.Err? {
      forall s
        ensures !Accepted(node, ethMap, raw, s)
      {
        assert Accepted(node, ethMap, raw, s) ==> s == accepted;
      }
      return Err(pairs.error), selectors;
    }
    var commands := Rendered(accepted);
    RenderedSelectors(accepted, commands);
    return Ok(commands), selectors;
  }

  lemma RenderedSelectors(selectors: seq<Selector>, commands: seq<SelectorRule>)
    requires forall x :: x in commands <==> exists s | s in selectors :: x == RuleOfSelector(s)
    requires forall i, j | 0 <= i < j < |commands| :: commands[i] != commands[j]
    ensures RendersSelectors(selectors, commands)
  {
  }

  method Rendered(selectors: seq<Selector>) returns (commands: seq<SelectorRule>)
    ensures forall x :: x in commands <==> exists s | s in selectors :: x == RuleOfSelector(s)
    ensures forall i, j | 0 <= i < j < |commands| :: commands[i] != commands[j]
  {
    commands := [];
    var seen: set<SelectorRule> := {};
    for i := 0 to |selectors|
      invariant forall x :: x in seen <==> x in commands
      invariant forall x :: x in commands <==> exists k :: 0 <= k < i && x == RuleOfSelector(selectors[k])
      invariant forall a, b | 0 <= a < b < |commands| :: commands[a] != commands[b]
    {
      var command := RuleOfSelector(selectors[i]);
      if command !in seen {
        seen := seen + {command};
        commands := commands + [command];
      }
    }
  }
}
