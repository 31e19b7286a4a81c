/**
 * What the rules of a rendering do to a packet: they are tried in priority order, the
 * smallest number first, and the first one that matches and finds a route decides
 * (clabgen/s88/CM/linux_policy_routes.py and relation_selection_rules.py).
 */
module PolicyLookup {
  import opened Arithmetic
  import opened Common
  import opened Sorting
  import opened Addressing
  import opened NodeModel
  import opened PolicyGroups
  import opened PolicyLanes
  import opened DestinationRules
  import opened SharedRules
  import opened CrossLanes
  import opened PolicyRender
  import opened RuleOrder
  import opened ForwardingValidation
  import RelationSelection

  /** A packet as the rules see it. */
  datatype Probe = Probe(iif: Name, src: Ip, dst: Ip)

  predicate Within(c: Cidr, a: Ip) {
    Valid(c) && InNetwork(a, c)
  }

  predicate Matches(c: Command, p: Probe) {
    match c
    case FromRule(f, source, ingress, _, _) =>
      f == p.dst.family && Within(source, p.src) && (ingress.None? || ingress.value == p.iif)
    case ToRule(r) => r.family == p.dst.family && Within(r.dst, p.dst) && r.iif == p.iif
    case IifRule(f, iif, _, _) => f == p.dst.family && iif == p.iif
    case MainSuppressed(f, to, prefix, iif, _) =>
      f == p.dst.family && Within(prefix, if to then p.dst else p.src) && iif == p.iif
    case Selected(x) =>
      x.family == p.dst.family && Within(x.source, p.src) && Within(x.destination, p.dst) && x.iif == p.iif
    case _ => false
  }

  datatype Destination = Main | Table(table: int)

  /** Priority and table of a rule; the main table is asked for specific routes only. */
  function RuleOfCommand(c: Command): Option<(int, Destination)> {
    match c
    case FromRule(_, _, _, priority, table) => Some((priority, Table(table)))
    case ToRule(r) => Some((r.priority, Table(r.table)))
    case IifRule(_, _, priority, table) => Some((priority, Table(table)))
    case MainSuppressed(_, _, _, _, priority) => Some((priority, Main))
    case Selected(x) => Some((x.priority, Table(x.table)))
    case _ => None
  }

  /** The table holds a route for the packet, if only to drop it. */
  ghost predicate HasRoute(cmds: seq<Command>, t: int, p: Probe) {
    exists c :: c in cmds && AnswersFor(c, t, p)
  }

  predicate AnswersFor(c: Command, t: int, p: Probe) {
    match c
    case RouteReplace(f, u, d, _) => f == p.dst.family && u == t && Within(d, p.dst)
    case Blackhole(u) => p.dst.family == V4 && u == t
    case _ => false
  }

  /** The rule matches and its table answers; `main` tells what the main table answers. */
  ghost predicate Decides(cmds: seq<Command>, main: Ip -> bool, c: Command, p: Probe) {
    && RuleOfCommand(c).Some? && Matches(c, p)
    && match RuleOfCommand(c).value.1
       case Main => main(p.dst)
       case Table(t) => HasRoute(cmds, t, p)
  }

  function PriorityOf(c: Command): int
    requires RuleOfCommand(c).Some?
  {
    RuleOfCommand(c).value.0
  }

  /** Of the first `n` commands, number `k` is the rule that decides: none that decides is tried before it. */
  ghost predicate DecidedBy(cmds: seq<Command>, main: Ip -> bool, p: Probe, n: nat, k: nat)
    requires n <= |cmds|
  {
    && k < n && Decides(cmds, main, cmds[k], p)
    && forall j | 0 <= j < n && Decides(cmds, main, cmds[j], p) ::
         PriorityOf(cmds[k]) < PriorityOf(cmds[j]) || (PriorityOf(cmds[k]) == PriorityOf(cmds[j]) && k <= j)
  }

  lemma {:induction false} SomeRuleIsFirst(cmds: seq<Command>, main: Ip -> bool, p: Probe, n: nat, i: nat)
    returns (k: nat)
    requires i < n <= |cmds| && Decides(cmds, main, cmds[i], p)
    ensures DecidedBy(cmds, main, p, n, k)
    decreases n
  {
    hide Matches, HasRoute;
    var last := n - 1;
    k := last;
    if j :| 0 <= j < last && Decides(cmds, main, cmds[j], p) {
      k := SomeRuleIsFirst(cmds, main, p, last, j);
      if Decides(cmds, main, cmds[last], p) && IsBefore(cmds[last], cmds[k]) {
        k := last;
      }
    }
  }

  predicate IsBefore(a: Command, b: Command) {
    RuleOfCommand(a).Some? && RuleOfCommand(b).Some? && PriorityOf(a) < PriorityOf(b)
  }

  // ------------------------------------------------------------------ claimed traffic

  /** A lane that has the destination puts the route for it into its table. */
  lemma CoveredIsRouted(
      listing: set<Cidr> -> seq<Cidr>, node: Node, ethMap: EthMap, selected: seq<RelationSelection.SelectorRule>,
      rows: seq<LaneRow>, row: LaneRow, f: Family, d: Cidr, p: Probe)
    requires ValidNode(node) && IsListing(listing) && row in rows && d in LaneGroups(row, f)
    requires f == p.dst.family && Within(d, p.dst)
    ensures HasRoute(LaneRendering(listing, node, ethMap, selected, rows), row.table, p)
  {
    hide Within, SharedAndCross, FirstPerKey, ValidNode;
    var dsts := listing(LaneGroups(row, f).Keys);
    var c := RouteReplace(f, row.table, d, set h | h in LaneGroups(row, f)[d]);
    assert d in dsts;
    TableHolds(f, row, dsts, d);
    assert c in FamilyCommands(listing, node, ethMap, row, f);
    hide FamilyCommands, TableCommands, LaneGroups, IsListing;
    assert InLane(listing, node, ethMap, row, c);
    var i :| 0 <= i < |rows| && rows[i] == row;
    Phase2Members(listing, node, ethMap, rows, |rows|, c);
    hide InLane, Phase2;
    assert c in LaneRendering(listing, node, ethMap, selected, rows) && AnswersFor(c, row.table, p);
  }

  lemma {:induction false} TableHolds(f: Family, row: LaneRow, dsts: seq<Cidr>, d: Cidr)
    requires (forall x | x in dsts :: x in LaneGroups(row, f)) && d in dsts
    ensures RouteReplace(f, row.table, d, set h | h in LaneGroups(row, f)[d]) in TableCommands(f, row, dsts)
  {
    if dsts[0] != d {
      assert dsts == [dsts[0]] + dsts[1..];
      TableHolds(f, row, dsts[1..], d);
    }
  }

  lemma ClaimDecides(
      listing: set<Cidr> -> seq<Cidr>, node: Node, ethMap: EthMap, selected: seq<RelationSelection.SelectorRule>,
      rows: seq<LaneRow>, main: Ip -> bool, p: Probe, r: DestRule)
    requires ValidNode(node) && IsListing(listing) && r in FirstPerKey(SharedAndCross(listing, ethMap, rows))
    requires Matches(ToRule(r), p)
    ensures (var cmds := LaneRendering(listing, node, ethMap, selected, rows);
             ToRule(r) in cmds && Decides(cmds, main, ToRule(r), p))
  {
    hide SharedAndCross, FirstPerKey, Phase2, LaneGroups, ValidNode, IsListing, Within;
    ClaimIsCovered(listing, ethMap, rows, r);
    var row :| row in rows && row.table == r.table && Covers(row, KeyOf(r));
    CoveredIsRouted(listing, node, ethMap, selected, rows, row, r.family, r.dst, p);
    ToRulesAre(FirstPerKey(SharedAndCross(listing, ethMap, rows)), ToRule(r));
    hide ToRules, Selecteds, HasRoute;
  }

  /**
   * A packet for which Phase 3 or 4 claims a rule never falls through: some rule decides
   * it, and the first that does is tried no later than the claim. It is a selector, a
   * check of the main table, or the rule of a lane or a pair of lanes.
   */
  lemma ClaimedTrafficIsDecided(
      listing: set<Cidr> -> seq<Cidr>, node: Node, ethMap: EthMap, raw: seq<RelationSelection.RawSelector>,
      cmds: seq<Command>, main: Ip -> bool, p: Probe, r: DestRule) returns (k: nat)
    requires ValidNode(node) && IsListing(listing) && LaneRows(node, ethMap).Ok?
    ensures IsRendered(listing, node, ethMap, raw, cmds)
            && r in FirstPerKey(SharedAndCross(listing, ethMap, LaneRows(node, ethMap).value))
            && Matches(ToRule(r), p) ==>
              && DecidedBy(cmds, main, p, |cmds|, k) && PriorityOf(cmds[k]) <= r.priority
              && (cmds[k].Selected? || cmds[k].MainSuppressed? || FromLanes(LaneRows(node, ethMap).value, cmds[k]))
  {
    var rows := LaneRows(node, ethMap).value;
    hide LaneRows, LaneRendering, SharedAndCross, FirstPerKey, Matches, FromLanes, ValidNode, IsListing, DecidedBy;
    k := 0;
    if IsRendered(listing, node, ethMap, raw, cmds) && r in FirstPerKey(SharedAndCross(listing, ethMap, rows))
       && Matches(ToRule(r), p)
    {
      var selectors, selected :|
        && RelationSelection.Accepted(node, ethMap, raw, selectors)
        && RelationSelection.RendersSelectors(selectors, selected)
        && cmds == LaneRendering(listing, node, ethMap, selected, rows);
      k := ClaimIsReached(listing, node, ethMap, selected, rows, main, p, r);
    }
  }

  lemma ClaimIsReached(
      listing: set<Cidr> -> seq<Cidr>, node: Node, ethMap: EthMap, selected: seq<RelationSelection.SelectorRule>,
      rows: seq<LaneRow>, main: Ip -> bool, p: Probe, r: DestRule) returns (k: nat)
    requires ValidNode(node) && IsListing(listing) && r in FirstPerKey(SharedAndCross(listing, ethMap, rows))
    requires Matches(ToRule(r), p)
    ensures (var cmds := LaneRendering(listing, node, ethMap, selected, rows);
             && DecidedBy(cmds, main, p, |cmds|, k) && PriorityOf(cmds[k]) <= r.priority
             && (cmds[k].Selected? || cmds[k].MainSuppressed? || FromLanes(rows, cmds[k])))
  {
    hide LaneRendering, SharedAndCross, FirstPerKey, Matches, Decides, FromLanes, ValidNode, IsListing;
    var cmds := LaneRendering(listing, node, ethMap, selected, rows);
    ClaimDecides(listing, node, ethMap, selected, rows, main, p, r);
    var i :| 0 <= i < |cmds| && cmds[i] == ToRule(r);
    k := SomeRuleIsFirst(cmds, main, p, |cmds|, i);
    DecidingIsRule(cmds, main, cmds[k], p);
    if LaneRule(cmds[k]).Some? {
      RenderedFromLanes(listing, node, ethMap, selected, rows, cmds[k]);
    }
  }

  lemma DecidingIsRule(cmds: seq<Command>, main: Ip -> bool, c: Command, p: Probe)
    requires Decides(cmds, main, c, p)
    ensures RuleOfCommand(c).Some? && (c.Selected? || c.MainSuppressed? || LaneRule(c).Some?)
  {
  }
}
