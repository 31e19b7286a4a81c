/**
 * The order of rules in a rendering: which lane rules may precede a relation
 * selector that leads into the same table (clabgen/s88/CM/relation_selection_rules.py
 * and linux_policy_routes.py).  A smaller priority number comes first.
 */
module RuleOrder {
  import opened Common
  import opened Sorting
  import opened Addressing
  import opened NodeModel
  import opened PolicyGroups
  import opened PolicyLanes
  import opened DestinationRules
  import opened SharedRules
  import opened CrossLanes
  import opened RelationSelection
  import opened PolicyRender

  /** The priority and table of a rule that a lane renders. */
  function LaneRule(c: Command): Option<(int, int)> {
    match c
    case FromRule(_, _, _, priority, table) => Some((priority, table))
    case ToRule(rule) => Some((rule.priority, rule.table))
    case IifRule(_, _, priority, table) => Some((priority, table))
    case _ => None
  }

  /** Phases 2 and 3: the rule is the lane's own, at its priority into its table. */
  predicate RuleOfLane(row: LaneRow, c: Command) {
    LaneRule(c) == Some((row.priority, row.table))
  }

  /** Phase 4: return traffic entering upstream lane `us` is sent to the table of its partner `ds`. */
  predicate CrossRuleOf(us: LaneRow, ds: LaneRow, c: Command) {
    c.ToRule? && Partner(us, KeyOf(c.rule))(ds) && us.eth == c.rule.iif
    && LaneRule(c) == Some((us.priority, ds.table))
  }

  ghost predicate FromLanes(rows: seq<LaneRow>, c: Command) {
    || (exists row :: row in rows && RuleOfLane(row, c))
    || (exists us, ds :: us in rows && ds in rows && CrossRuleOf(us, ds, c))
  }

  lemma Phase2FromLanes(listing: set<Cidr> -> seq<Cidr>, node: Node, ethMap: EthMap, rows: seq<LaneRow>, c: Command)
    requires ValidNode(node) && IsListing(listing) && c in Phase2(listing, node, ethMap, rows, |rows|)
    requires LaneRule(c).Some?
    ensures FromLanes(rows, c)
  {
    Phase2Members(listing, node, ethMap, rows, |rows|, c);
    var i :| 0 <= i < |rows| && InLane(listing, node, ethMap, rows[i], c);
    LaneCommandsAtLanePriority(listing, node, ethMap, rows[i], V4);
    LaneCommandsAtLanePriority(listing, node, ethMap, rows[i], V6);
    assert RuleOfLane(rows[i], c);
  }

  lemma {:induction false} SharedFromLanes(
      listing: set<Cidr> -> seq<Cidr>, ethMap: EthMap, rows: seq<LaneRow>, r: DestRule)
    requires IsListing(listing) && r in SharedCandidates(listing, ethMap, rows)
    ensures exists row :: row in rows && RuleOfLane(row, ToRule(r)) && Covers(row, KeyOf(r))
  {
    var eths := EthsOf(ethMap, rows[0].shared);
    if r in TableRules(listing, rows[0], eths, rows[0].priority) {
      TableRulesMembers(listing, rows[0], eths, rows[0].priority, r);
      assert rows[0] in rows && RuleOfLane(rows[0], ToRule(r));
    } else {
      SharedFromLanes(listing, ethMap, rows[1..], r);
    }
  }

  lemma {:induction false} CrossFromPartner(
      listing: set<Cidr> -> seq<Cidr>, us: LaneRow, downs: seq<LaneRow>, count: nat, r: DestRule) returns (ds: LaneRow)
    requires IsListing(listing) && count <= |downs| && r in CrossFrom(listing, us, downs, count)
    requires us.access.Some? && forall d | d in downs :: IsDownstream(d, us.access.value)
    ensures ds in downs && CrossRuleOf(us, ds, ToRule(r))
    decreases count
  {
    ds := downs[count - 1];
    if r in CrossFrom(listing, us, downs, count - 1) {
      ds := CrossFromPartner(listing, us, downs, count - 1, r);
    } else {
      TableRulesMembers(listing, ds, [us.eth], us.priority, r);
    }
  }

  lemma {:induction false} CrossOfAccessPartner(
      listing: set<Cidr> -> seq<Cidr>, rows: seq<LaneRow>, access: Name, count: nat, r: DestRule)
      returns (us: LaneRow, ds: LaneRow)
    requires IsListing(listing) && count <= |Upstream(rows, access)|
    requires r in CrossOfAccess(listing, Upstream(rows, access), Downstream(rows, access), count)
    ensures us in rows && ds in rows && CrossRuleOf(us, ds, ToRule(r))
    decreases count
  {
    hide CrossFrom, CrossRuleOf, IsDownstream, IsListing;
    var ups, downs := Upstream(rows, access), Downstream(rows, access);
    us := ups[count - 1];
    if r in CrossOfAccess(listing, ups, downs, count - 1) {
      us, ds := CrossOfAccessPartner(listing, rows, access, count - 1, r);
    } else {
      StreamMembers(rows, access, us);
      assert us.access == Some(access);
      hide Upstream, Downstream, IsUpstream, CrossOfAccess;
      forall d | d in downs
        ensures d in rows && IsDownstream(d, access)
      {
        StreamMembers(rows, access, d);
      }
      ds := CrossFromPartner(listing, us, downs, |downs|, r);
    }
  }

  lemma {:induction false} CrossFromLanes(
      listing: set<Cidr> -> seq<Cidr>, rows: seq<LaneRow>, accesses: seq<Name>, count: nat, r: DestRule)
    requires IsListing(listing) && count <= |accesses| && r in CrossCandidates(listing, rows, accesses, count)
    ensures exists us, ds :: us in rows && ds in rows && CrossRuleOf(us, ds, ToRule(r))
    decreases count
  {
    if r in CrossCandidates(listing, rows, accesses, count - 1) {
      CrossFromLanes(listing, rows, accesses, count - 1, r);
    } else {
      var us, ds := CrossOfAccessPartner(listing, rows, accesses[count - 1], |Upstream(rows, accesses[count - 1])|, r);
    }
  }

  lemma ClaimedFromLanes(listing: set<Cidr> -> seq<Cidr>, ethMap: EthMap, rows: seq<LaneRow>, r: DestRule)
    requires IsListing(listing) && r in FirstPerKey(SharedAndCross(listing, ethMap, rows))
    ensures FromLanes(rows, ToRule(r))
  {
    var sorted := SortDescending(rows);
    var accesses := SortedNames(CrossAccesses(sorted));
    SortKeepsRows(rows);
    KeptIsFirst(SharedAndCross(listing, ethMap, rows), r);
    if r in SharedCandidates(listing, ethMap, sorted) {
      SharedFromLanes(listing, ethMap, sorted, r);
    } else {
      CrossFromLanes(listing, sorted, accesses, |accesses|, r);
    }
  }

  /** A claimed rule leads to a table in which some lane has the destination. */
  lemma ClaimIsCovered(listing: set<Cidr> -> seq<Cidr>, ethMap: EthMap, rows: seq<LaneRow>, r: DestRule)
    requires IsListing(listing) && r in FirstPerKey(SharedAndCross(listing, ethMap, rows))
    ensures exists row :: row in rows && row.table == r.table && Covers(row, KeyOf(r))
  {
    hide FirstPerKey, FirstWith, SharedCandidates, CrossCandidates, CrossAccesses, SortDescending, IsListing, Covers;
    hide IsDownstream;
    var sorted := SortDescending(rows);
    var accesses := SortedNames(CrossAccesses(sorted));
    SortKeepsRows(rows);
    KeptIsFirst(SharedAndCross(listing, ethMap, rows), r);
    if r in SharedCandidates(listing, ethMap, sorted) {
      SharedFromLanes(listing, ethMap, sorted, r);
    } else {
      CrossFromLanes(listing, sorted, accesses, |accesses|, r);
    }
  }

  /** Every rule of a rendering that no selector put there belongs to a lane or a pair of lanes. */
  lemma RenderedFromLanes(
      listing: set<Cidr> -> seq<Cidr>, node: Node, ethMap: EthMap, selected: seq<SelectorRule>, rows: seq<LaneRow>,
      c: Command)
    requires ValidNode(node) && IsListing(listing) && LaneRule(c).Some?
    ensures c in LaneRendering(listing, node, ethMap, selected, rows) ==> FromLanes(rows, c)
  {
    hide Phase2, FirstPerKey, SharedAndCross, FromLanes, ValidNode, IsListing;
    if c in Phase2(listing, node, ethMap, rows, |rows|) {
      Phase2FromLanes(listing, node, ethMap, rows, c);
    } else if c in LaneRendering(listing, node, ethMap, selected, rows) {
      var rules := FirstPerKey(SharedAndCross(listing, ethMap, rows));
      assert c in ToRules(rules);
      ClaimedFromLanes(listing, ethMap, rows, c.rule);
    }
  }

  /**
   * The order of a rendering, for each accepted selector and the lane of its policy
   * interface: the selector's rule is rendered, and every lane rule into its table comes
   * strictly after it, unless that rule belongs to a different lane which shares the
   * table, or is the cross rule of a different, upstream lane.
   */
  lemma SelectorPrecedesLaneRules(
      listing: set<Cidr> -> seq<Cidr>, node: Node, ethMap: EthMap, raw: seq<RawSelector>, cmds: seq<Command>,
      i: nat, row: LaneRow)
    requires ValidNode(node) && IsListing(listing) && i < |raw|
    requires InterfaceForIdentity(node, ethMap, raw[i].policyInterface) == Some(row.ifname)
    ensures IsRendered(listing, node, ethMap, raw, cmds) && row in LaneRows(node, ethMap).value ==>
              && ValidateSelector(node, ethMap, raw[i]).Ok?
              && (var x := RuleOfSelector(ValidateSelector(node, ethMap, raw[i]).value);
                  && x.table == row.table && Selected(x) in cmds
                  && forall c, priority | c in cmds && LaneRule(c) == Some((priority, x.table)) ::
                       Follows(LaneRows(node, ethMap).value, row, x.priority, priority, c))
  {
    hide LaneRows, ValidateSelector, Accepted, RendersSelectors, LaneRendering, ValidNode, IsListing, Follows;
    hide InterfaceForIdentity;
    if IsRendered(listing, node, ethMap, raw, cmds) && row in LaneRows(node, ethMap).value {
      var rows := LaneRows(node, ethMap).value;
      var selectors, selected :|
        && Accepted(node, ethMap, raw, selectors) && RendersSelectors(selectors, selected)
        && cmds == LaneRendering(listing, node, ethMap, selected, rows);
      AcceptedAt(node, ethMap, raw, selectors, i);
      PrecedesRow(node, ethMap, raw[i], row);
      SelectedIsRendered(listing, node, ethMap, selectors, selected, rows, i);
      var x := RuleOfSelector(selectors[i]);
      hide FromLanes, LaneRule;
      forall c, priority | c in cmds && LaneRule(c) == Some((priority, x.table))
        ensures Follows(rows, row, x.priority, priority, c)
      {
        RenderedFromLanes(listing, node, ethMap, selected, rows, c);
        LaneRuleFollows(rows, row, x.priority, priority, c);
      }
    }
  }

  lemma AcceptedAt(node: Node, ethMap: EthMap, raw: seq<RawSelector>, selectors: seq<Selector>, i: nat)
    requires Accepted(node, ethMap, raw, selectors) && i < |raw|
    ensures i < |selectors| && ValidateSelector(node, ethMap, raw[i]) == Ok(selectors[i])
  {
  }

  /** The rule comes after the selector, or belongs to another lane. */
  ghost predicate Follows(rows: seq<LaneRow>, row: LaneRow, selector: int, priority: int, c: Command) {
    || selector < priority
    || (exists other :: other in rows && other != row && RuleOfLane(other, c))
    || (exists us, ds :: us in rows && us != row && ds in rows && CrossRuleOf(us, ds, c))
  }

  lemma LaneRuleFollows(rows: seq<LaneRow>, row: LaneRow, selector: int, priority: int, c: Command)
    requires row in rows && selector < row.priority && LaneRule(c) == Some((priority, row.table)) && FromLanes(rows, c)
    ensures Follows(rows, row, selector, priority, c)
  {
    hide IsDownstream, Covers;
  }

  lemma PrecedesRow(node: Node, ethMap: EthMap, s: RawSelector, row: LaneRow)
    requires ValidNode(node) && InterfaceForIdentity(node, ethMap, s.policyInterface) == Some(row.ifname)
    ensures (var (v, rows) := (ValidateSelector(node, ethMap, s), LaneRows(node, ethMap));
             v.Ok? && rows.Ok? && row in rows.value ==>
               v.value.tableId == row.table && 0 < v.value.priority < row.priority)
  {
    hide RowsOf, RowOf, IsSurface, ValidateSelector, InterfaceForIdentity, ValidNode;
    var names := SortedNames(node.interfaces.Keys);
    LanesAreTheSurfaces(node, ethMap, names, |names|);
    if LaneRows(node, ethMap).Ok? && row in LaneRows(node, ethMap).value {
      SelectorPrecedesItsLane(node, ethMap, s, row);
    }
  }

  lemma SelectedIsRendered(
      listing: set<Cidr> -> seq<Cidr>, node: Node, ethMap: EthMap, selectors: seq<Selector>,
      selected: seq<SelectorRule>,
      rows: seq<LaneRow>, i: nat)
    requires ValidNode(node) && IsListing(listing) && i < |selectors| && RendersSelectors(selectors, selected)
    ensures Selected(RuleOfSelector(selectors[i])) in LaneRendering(listing, node, ethMap, selected, rows)
  {
    var x := RuleOfSelector(selectors[i]);
    assert selectors[i] in selectors;
    assert x in selected;
    hide RendersSelectors, Phase2, FirstPerKey, SharedAndCross, ValidNode, IsListing;
    var k :| 0 <= k < |selected| && selected[k] == x;
    assert Selecteds(selected)[k] == Selected(x);
  }
}
