/**
 * `_validate_policy_rules` of clabgen/s88/CM/fs370_forwarding_validation.py: one scan
 * over the commands that rejects default destinations and conflicting rules for one
 * (family, destination, ingress).
 */
module ForwardingValidation {
  import opened Common
  import opened Sorting
  import opened Addressing
  import opened NodeModel
  import opened PolicyLanes
  import opened PolicyGroups
  import opened DestinationRules
  import opened SharedRules
  import opened CrossLanes
  import opened PolicyRender
  import RelationSelection

  datatype RuleError = ProhibitedDefault(iif: Name) | PriorityInversion(dst: Cidr, iif: Name)

  predicate SameTarget(a: DestRule, b: DestRule) {
    a.priority == b.priority && a.table == b.table
  }

  /** No rule for a default, and (family, destination, ingress) determines (priority, table). */
  ghost predicate Functional(commands: seq<Command>) {
    && (forall c | c in commands && c.ToRule? :: !IsDefault(c.rule.dst))
    && (forall a, b | a in commands && b in commands && a.ToRule? && b.ToRule?
                      && KeyOf(a.rule) == KeyOf(b.rule) :: SameTarget(a.rule, b.rule))
  }

  method ValidatePolicyRules(commands: seq<Command>) returns (r: Result<(), RuleError>)
    ensures r.Ok? <==> Functional(commands)
    ensures r.Err? && r.error.ProhibitedDefault? ==>
              exists c | c in commands :: c.ToRule? && IsDefault(c.rule.dst) && c.rule.iif == r.error.iif
    ensures r.Err? && r.error.PriorityInversion? ==>
              exists a, b | a in commands && b in commands ::
                a.ToRule? && b.ToRule? && KeyOf(a.rule) == KeyOf(b.rule) && !SameTarget(a.rule, b.rule)
                && a.rule.dst == r.error.dst && a.rule.iif == r.error.iif
  {
    var claimed: map<Key, (int, int)> := map[];
    for i := 0 to |commands|
      invariant forall c | c in commands[..i] && c.ToRule? ::
                  && !IsDefault(c.rule.dst) && KeyOf(c.rule) in claimed
                  && claimed[KeyOf(c.rule)] == (c.rule.priority, c.rule.table)
      invariant forall k | k in claimed :: exists c | c in commands[..i] ::
                  c.ToRule? && KeyOf(c.rule) == k && claimed[k] == (c.rule.priority, c.rule.table)
    {
      var c := commands[i];
      assert commands[..i + 1] == commands[..i] + [c];
      if c.ToRule? {
        var rule := c.rule;
        if IsDefault(rule.dst) {
          return Err(ProhibitedDefault(rule.iif));
        }
        var value := (rule.priority, rule.table);
        if KeyOf(rule) in claimed && claimed[KeyOf(rule)] != value {
          return Err(PriorityInversion(rule.dst, rule.iif));
        }
        claimed := claimed[KeyOf(rule) := value];
      }
    }
    assert commands[..|commands|] == commands;
    return Ok(());
  }

  /** Tables hold only destinations of their own family. */
  ghost predicate FamilyConsistent(rows: seq<LaneRow>) {
    forall row, f, d | row in rows && d in LaneGroups(row, f) :: d.ip.family == f
  }

  /** Each list of routes holds destinations of its own family only. */
  ghost predicate RoutesOfFamily(node: Node) {
    forall n, r, f | n in node.interfaces && r in Routes(node.interfaces[n], f) && r.dst.Some? ::
      r.dst.value.ip.family == f
  }

  /** So a caller can tell from the node that the tables will keep to their family. */
  lemma RoutesGiveFamilies(node: Node, ethMap: EthMap)
    requires ValidNode(node) && RoutesOfFamily(node) && LaneRows(node, ethMap).Ok?
    ensures FamilyConsistent(LaneRows(node, ethMap).value)
  {
    var rows, names := LaneRows(node, ethMap).value, SortedNames(node.interfaces.Keys);
    LanesAreTheSurfaces(node, ethMap, names, |names|);
    hide RowsOf, GroupsOf, ValidNode, RowOf, LaneGroups, NormalizePrefix, NamesRise, StrictlySorted;
    forall row, f, d | row in rows && d in LaneGroups(row, f)
      ensures d.ip.family == f
    {
      GroupsOfRow(node, ethMap, row, f);
      GroupsComeFromRoutes(node, ethMap, row.ifname, f, d);
      NormalizingKeepsFamily();
    }
  }

  lemma NormalizingKeepsFamily()
    ensures forall c :: NormalizePrefix(c).ip.family == c.ip.family
  {
  }

  lemma GroupsOfRow(node: Node, ethMap: EthMap, row: LaneRow, f: Family)
    requires ValidNode(node) && IsSurface(node, ethMap, row.ifname)
    ensures RowOf(node, ethMap, row.ifname) == Ok(row) ==> LaneGroups(row, f) == GroupsOf(node, ethMap, row.ifname, f)
  {
    hide GroupsOf, ValidNode, PolicyRoutingAllocation, SharedInterfaces, IsPolicyRoutingSurface;
  }

  lemma {:induction false} SharedFamilies(listing: set<Cidr> -> seq<Cidr>, ethMap: EthMap, rows: seq<LaneRow>,
                                          r: DestRule)
    requires IsListing(listing) && FamilyConsistent(rows) && r in SharedCandidates(listing, ethMap, rows)
    ensures !IsDefault(r.dst)
  {
    var head := TableRules(listing, rows[0], EthsOf(ethMap, rows[0].shared), rows[0].priority);
    if r in head {
      TableRulesMembers(listing, rows[0], EthsOf(ethMap, rows[0].shared), rows[0].priority, r);
      assert rows[0] in rows;
    } else {
      SharedFamilies(listing, ethMap, rows[1..], r);
    }
  }

  lemma {:induction false} CrossFromFamilies(listing: set<Cidr> -> seq<Cidr>, us: LaneRow, downs: seq<LaneRow>,
                                             count: nat, r: DestRule)
    requires IsListing(listing) && FamilyConsistent(downs) && count <= |downs|
            && r in CrossFrom(listing, us, downs, count)
    ensures !IsDefault(r.dst)
    decreases count
  {
    if r in CrossFrom(listing, us, downs, count - 1) {
      CrossFromFamilies(listing, us, downs, count - 1, r);
    } else {
      TableRulesMembers(listing, downs[count - 1], [us.eth], us.priority, r);
      assert downs[count - 1] in downs;
    }
  }

  lemma {:induction false} CrossOfAccessFamilies(listing: set<Cidr> -> seq<Cidr>, ups: seq<LaneRow>,
                                                 downs: seq<LaneRow>, count: nat, r: DestRule)
    requires IsListing(listing) && FamilyConsistent(downs) && count <= |ups|
            && r in CrossOfAccess(listing, ups, downs, count)
    ensures !IsDefault(r.dst)
    decreases count
  {
    hide CrossFrom, FamilyConsistent, IsListing;
    if r in CrossOfAccess(listing, ups, downs, count - 1) {
      CrossOfAccessFamilies(listing, ups, downs, count - 1, r);
    } else {
      CrossFromFamilies(listing, ups[count - 1], downs, |downs|, r);
    }
  }

  lemma {:induction false} CrossFamilies(listing: set<Cidr> -> seq<Cidr>, rows: seq<LaneRow>, accesses: seq<Name>,
                                         count: nat, r: DestRule)
    requires IsListing(listing) && FamilyConsistent(rows) && count <= |accesses|
    requires r in CrossCandidates(listing, rows, accesses, count)
    ensures !IsDefault(r.dst)
    decreases count
  {
    hide CrossOfAccess, Upstream, Downstream, IsListing, IsDefault;
    if r in CrossCandidates(listing, rows, accesses, count - 1) {
      CrossFamilies(listing, rows, accesses, count - 1, r);
    } else {
      var access := accesses[count - 1];
      var ups, downs := Upstream(rows, access), Downstream(rows, access);
      forall row | row in downs
        ensures row in rows
      {
        StreamMembers(rows, access, row);
      }
      CrossOfAccessFamilies(listing, ups, downs, |ups|, r);
    }
  }

  /** No default destination is ever claimed. */
  lemma NoDefaultIsClaimed(listing: set<Cidr> -> seq<Cidr>, ethMap: EthMap, rows: seq<LaneRow>, r: DestRule)
    requires IsListing(listing) && FamilyConsistent(rows) && r in FirstPerKey(SharedAndCross(listing, ethMap, rows))
    ensures !IsDefault(r.dst)
  {
    hide IsListing, FirstPerKey, FirstWith, SharedCandidates, CrossCandidates, SortDescending, CrossAccesses;
    var sorted := SortDescending(rows);
    var accesses := SortedNames(CrossAccesses(sorted));
    SortKeepsRows(rows);
    assert FamilyConsistent(sorted);
    hide FamilyConsistent, IsDefault;
    KeptIsFirst(SharedAndCross(listing, ethMap, rows), r);
    if r in SharedCandidates(listing, ethMap, sorted) {
      SharedFamilies(listing, ethMap, sorted, r);
    } else {
      CrossFamilies(listing, sorted, accesses, |accesses|, r);
    }
  }

  lemma ToRulesAre(rules: seq<DestRule>, c: Command)
    ensures c in ToRules(rules) <==> c.ToRule? && c.rule in rules
  {
    if c.ToRule? && c.rule in rules {
      var i :| 0 <= i < |rules| && rules[i] == c.rule;
      assert ToRules(rules)[i] == c;
    }
  }

  /** What Phases 3 and 4 emit is always accepted, given tables that keep to their family. */
  lemma ClaimedRulesAreAccepted(listing: set<Cidr> -> seq<Cidr>, ethMap: EthMap, lanes: seq<LaneRow>)
    requires IsListing(listing) && FamilyConsistent(lanes)
    ensures Functional(ToRules(FirstPerKey(SharedAndCross(listing, ethMap, lanes))))
  {
    hide IsListing, FamilyConsistent, FirstPerKey, SharedAndCross, ToRules, IsDefault;
    var rules := FirstPerKey(SharedAndCross(listing, ethMap, lanes));
    FirstPerKeyDistinct(SharedAndCross(listing, ethMap, lanes));
    forall c | c in ToRules(rules)
      ensures c.ToRule? && c.rule in rules && !IsDefault(c.rule.dst)
    {
      ToRulesAre(rules, c);
      NoDefaultIsClaimed(listing, ethMap, lanes, c.rule);
    }
    forall a, b | a in ToRules(rules) && b in ToRules(rules) && KeyOf(a.rule) == KeyOf(b.rule)
      ensures a == b
    {
      var i :| 0 <= i < |rules| && rules[i] == a.rule;
      var j :| 0 <= j < |rules| && rules[j] == b.rule;
    }
  }

  // -------------------------------------------------- when the whole rendering is accepted

  ghost predicate Injective(ethMap: EthMap) {
    forall a, b | a in ethMap && b in ethMap && ethMap[a] == ethMap[b] :: a == b
  }

  /**
   * What Phases 3 and 4 claim on the interface of `row` for key `k` leads where the
   * lane itself leads: the best serving lane has the row's priority and table, and
   * without a serving lane no cross rule arises (one would lead to another table).
   */
  ghost predicate Unopposed(ethMap: EthMap, rows: seq<LaneRow>, row: LaneRow, k: Key) {
    && (forall i: nat | IsBest(rows, Serving(ethMap, k), i) ::
          rows[i].priority == row.priority && rows[i].table == row.table)
    && ((forall other | other in rows :: !Serves(ethMap, other, k)) && row.access.Some?
        && IsUpstream(row, row.access.value) ==>
          forall other | other in rows :: !Partner(row, k)(other))
  }

  /** Every prefix a lane routes on its own interface is no default and meets no opposing claim. */
  ghost predicate OwnRulesAgree(node: Node, ethMap: EthMap, rows: seq<LaneRow>)
    requires ValidNode(node)
  {
    forall row, f, p | row in rows && OwnPrefix(node, row, f, p) ::
      !IsDefault(p) && Unopposed(ethMap, rows, row, Key(f, p, row.eth))
  }

  lemma UnopposedMeans(
      listing: set<Cidr> -> seq<Cidr>, ethMap: EthMap, rows: seq<LaneRow>, row: LaneRow, f: Family, p: Cidr)
    requires IsListing(listing) && AloneOn(rows, row)
    ensures Unopposed(ethMap, rows, row, Key(f, p, row.eth))
       <==> ClaimAgrees(SharedAndCross(listing, ethMap, rows), row, f, p)
  {
    var k := Key(f, p, row.eth);
    ClaimOnOwnInterface(listing, ethMap, rows, row, k);
    var i := FirstSuchIsBest(rows, Serving(ethMap, k));
    var j := FirstSuchIsBest(rows, Partner(row, k));
    hide SharedAndCross, FirstWith, SortDescending, FirstSuch, IsListing, IsUpstream, Covers;
    forall a: nat, b: nat | IsBest(rows, Serving(ethMap, k), a) && IsBest(rows, Serving(ethMap, k), b)
      ensures a == b
    {
    }
  }

  ghost predicate OwnOf(node: Node, rows: seq<LaneRow>, r: DestRule)
    requires ValidNode(node)
  {
    exists row :: row in rows && OwnPrefix(node, row, r.family, r.dst) && r == OwnRule(row, r.family, r.dst)
  }

  /** The destination rules of a rendering: those of Phase 2 and the claimed ones. */
  lemma RenderedDestinationRules(
      listing: set<Cidr> -> seq<Cidr>, node: Node, ethMap: EthMap, selected: seq<RelationSelection.SelectorRule>,
      rows: seq<LaneRow>, r: DestRule)
    requires ValidNode(node) && IsListing(listing) && forall row | row in rows :: RowOfNode(node, ethMap, row)
    ensures ToRule(r) in LaneRendering(listing, node, ethMap, selected, rows)
       <==> FirstWith(SharedAndCross(listing, ethMap, rows), KeyOf(r)) == Some(r) || OwnOf(node, rows, r)
  {
    Phase2DestinationRules(listing, node, ethMap, rows, r);
    KeptIsFirst(SharedAndCross(listing, ethMap, rows), r);
    ToRulesAre(FirstPerKey(SharedAndCross(listing, ethMap, rows)), ToRule(r));
    hide Phase2, ToRules, FirstPerKey, FirstWith, SharedAndCross, OwnPrefix, ValidNode, IsListing;
  }

  /** The claim for a lane's own rule, if there is one, leads where the rule leads. */
  predicate ClaimAgrees(candidates: seq<DestRule>, row: LaneRow, f: Family, p: Cidr) {
    var claim := FirstWith(candidates, Key(f, p, row.eth));
    claim.Some? ==> SameTarget(OwnRule(row, f, p), claim.value)
  }

  lemma OwnAndClaimed(
      listing: set<Cidr> -> seq<Cidr>, node: Node, ethMap: EthMap, selected: seq<RelationSelection.SelectorRule>,
      rows: seq<LaneRow>)
    requires ValidNode(node) && IsListing(listing) && FamilyConsistent(rows)
    requires forall row | row in rows :: RowOfNode(node, ethMap, row) && AloneOn(rows, row)
    ensures Functional(LaneRendering(listing, node, ethMap, selected, rows)) <==> OwnRulesAgree(node, ethMap, rows)
  {
    hide LaneRendering, SharedAndCross, FirstWith, FirstPerKey, Unopposed, OwnPrefix, OwnOf, FamilyConsistent;
    hide Functional, IsListing, ValidNode;
    var cmds, candidates := LaneRendering(listing, node, ethMap, selected, rows), SharedAndCross(listing, ethMap, rows);
    forall r
      ensures ToRule(r) in cmds <==> FirstWith(candidates, KeyOf(r)) == Some(r) || OwnOf(node, rows, r)
    {
      RenderedDestinationRules(listing, node, ethMap, selected, rows, r);
    }
    forall r | FirstWith(candidates, KeyOf(r)) == Some(r)
      ensures !IsDefault(r.dst)
    {
      KeptIsFirst(candidates, r);
      NoDefaultIsClaimed(listing, ethMap, rows, r);
    }
    forall row, f, p | row in rows
      ensures Unopposed(ethMap, rows, row, Key(f, p, row.eth)) <==> ClaimAgrees(candidates, row, f, p)
    {
      UnopposedMeans(listing, ethMap, rows, row, f, p);
    }
    FunctionalIff(node, rows, cmds, candidates);
    hide ClaimAgrees, AloneOn;
  }

  /** Own rules never conflict among themselves, nor do claimed ones; what remains is one against the other. */
  lemma FunctionalIff(node: Node, rows: seq<LaneRow>, cmds: seq<Command>, candidates: seq<DestRule>)
    requires ValidNode(node) && forall row | row in rows :: AloneOn(rows, row)
    requires forall r :: ToRule(r) in cmds <==> FirstWith(candidates, KeyOf(r)) == Some(r) || OwnOf(node, rows, r)
    requires forall r | FirstWith(candidates, KeyOf(r)) == Some(r) :: !IsDefault(r.dst)
    ensures Functional(cmds) <==>
              forall row, f, p | row in rows && OwnPrefix(node, row, f, p) ::
                !IsDefault(p) && ClaimAgrees(candidates, row, f, p)
  {
    hide OwnPrefix, FirstWith, ValidNode, IsDefault;
    if Functional(cmds) {
      forall row, f, p | row in rows && OwnPrefix(node, row, f, p)
        ensures !IsDefault(p) && ClaimAgrees(candidates, row, f, p)
      {
        var own, claim := OwnRule(row, f, p), FirstWith(candidates, Key(f, p, row.eth));
        assert OwnOf(node, rows, own) && ToRule(own) in cmds;
        if claim.Some? {
          assert KeyOf(claim.value) == Key(f, p, row.eth) && ToRule(claim.value) in cmds;
        }
      }
    }
    if forall row, f, p | row in rows && OwnPrefix(node, row, f, p) ::
         !IsDefault(p) && ClaimAgrees(candidates, row, f, p)
    {
      forall a, b | ToRule(a) in cmds && ToRule(b) in cmds && KeyOf(a) == KeyOf(b)
        ensures !IsDefault(a.dst) && SameTarget(a, b)
      {
      }
    }
  }

  /**
   * The validator accepts a rendering exactly when no lane's own prefix is a default or
   * meets an opposing claim. Phase 2 destination rules are outside the claim sets, so
   * nothing in the renderer establishes this.
   */
  lemma RenderingAcceptedIff(
      listing: set<Cidr> -> seq<Cidr>, node: Node, ethMap: EthMap, raw: seq<RelationSelection.RawSelector>,
      cmds: seq<Command>)
    requires ValidNode(node) && IsListing(listing) && Injective(ethMap)
    requires IsRendered(listing, node, ethMap, raw, cmds) && FamilyConsistent(LaneRows(node, ethMap).value)
    ensures Functional(cmds) <==> OwnRulesAgree(node, ethMap, LaneRows(node, ethMap).value)
  {
    var rows := LaneRows(node, ethMap).value;
    RowsOfNode(node, ethMap);
    hide LaneRows;
    forall row | row in rows
      ensures AloneOn(rows, row)
    {
      forall other | other in rows && other.eth == row.eth
        ensures other == row
      {
        assert other.ifname == row.ifname;
      }
    }
    hide LaneRendering, OwnRulesAgree, Functional, FamilyConsistent, AloneOn, IsListing, ValidNode;
    var selectors, selected :|
      && RelationSelection.Accepted(node, ethMap, raw, selectors)
      && RelationSelection.RendersSelectors(selectors, selected)
      && cmds == LaneRendering(listing, node, ethMap, selected, rows);
    OwnAndClaimed(listing, node, ethMap, selected, rows);
  }
}
