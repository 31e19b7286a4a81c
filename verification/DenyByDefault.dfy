/**
 * Deny by default in a whole rendering (clabgen/s88/CM/linux_policy_routes.py): which
 * tables rules lead into, which of them hold a route or a blackhole, and when every
 * table that traffic can enter is one of those.
 */
module DenyByDefault {
  import opened Common
  import opened Sorting
  import opened Addressing
  import opened NodeModel
  import opened PolicyGroups
  import opened PolicyLanes
  import opened DestinationRules
  import opened SharedRules
  import opened CrossLanes
  import opened RelationSelection
  import opened PolicyRender
  import opened RuleOrder

  /** The command is a rule of the family into the table. */
  predicate LeadsTo(c: Command, t: int, f: Family) {
    match c
    case FromRule(g, _, _, _, u) => g == f && u == t
    case ToRule(r) => r.family == f && r.table == t
    case IifRule(g, _, _, u) => g == f && u == t
    case Selected(x) => x.family == f && x.table == t
    case _ => false
  }

  /** The command leaves the table of the family with a route, if only to drop. */
  predicate Fills(c: Command, t: int, f: Family) {
    match c
    case RouteReplace(g, u, _, _) => g == f && u == t
    case Blackhole(u) => f == V4 && u == t
    case _ => false
  }

  ghost predicate TableEntered(cmds: seq<Command>, t: int, f: Family) {
    exists c :: c in cmds && LeadsTo(c, t, f)
  }

  ghost predicate TableFilled(cmds: seq<Command>, t: int, f: Family) {
    exists c :: c in cmds && Fills(c, t, f)
  }

  // ------------------------------------------------------------------ one lane's commands

  /** The family a command is about, where it says so. */
  predicate OfFamily(c: Command, f: Family) {
    match c
    case RouteReplace(g, _, _, _) => g == f
    case Blackhole(_) => f == V4
    case FromRule(g, _, _, _, _) => g == f
    case ToRule(r) => r.family == f
    case IifRule(g, _, _, _) => g == f
    case MainSuppressed(g, _, _, _, _) => g == f
    case Selected(x) => x.family == f
  }

  ghost predicate AllOfFamily(cmds: seq<Command>, f: Family) {
    forall c | c in cmds :: OfFamily(c, f)
  }

  lemma {:induction false} TableOfFamily(f: Family, row: LaneRow, dsts: seq<Cidr>)
    requires forall d | d in dsts :: d in LaneGroups(row, f)
    ensures AllOfFamily(TableCommands(f, row, dsts), f)
    ensures forall c | c in TableCommands(f, row, dsts) :: c.RouteReplace?
  {
    if dsts != [] {
      TableOfFamily(f, row, dsts[1..]);
    }
  }

  lemma {:induction false} PrefixesOfFamily(row: LaneRow, f: Family, prefixes: seq<Cidr>, eth: Name, own: bool)
    ensures AllOfFamily(PrefixesCommands(row, f, prefixes, eth, own), f)
  {
    if prefixes != [] {
      PrefixesOfFamily(row, f, prefixes[1..], eth, own);
    }
  }

  lemma {:induction false} RulesOfFamily(node: Node, ethMap: EthMap, row: LaneRow, f: Family, sources: seq<Name>)
    requires ValidNode(node)
    ensures AllOfFamily(RuleCommands(node, ethMap, row, f, sources), f)
  {
    hide SourcePrefixes, PrefixesCommands;
    if sources != [] {
      RulesOfFamily(node, ethMap, row, f, sources[1..]);
      var n := sources[0];
      if n in ethMap && n in node.interfaces {
        var prefixes := SourcePrefixes(node.interfaces[n], f, n != row.ifname);
        PrefixesOfFamily(row, f, prefixes, ethMap[n], n == row.ifname);
      }
    }
  }

  lemma {:induction false} LocalOriginOfFamily(
      node: Node, ethMap: EthMap, row: LaneRow, f: Family, names: seq<Name>, outgoing: seq<Ip>)
    requires ValidNode(node)
    ensures AllOfFamily(LocalOriginCommands(node, ethMap, row, f, names, outgoing), f)
  {
    hide SourceOfAddress, ValidNode;
    if outgoing != [] {
      LocalOriginOfFamily(node, ethMap, row, f, names, outgoing[..|outgoing| - 1]);
    }
  }

  /** All commands of a lane for a family are about that family; rules there are only where the lane enters. */
  lemma LaneCommandsOfFamily(
      listing: set<Cidr> -> seq<Cidr>, node: Node, ethMap: EthMap, row: LaneRow, f: Family)
    requires ValidNode(node) && IsListing(listing)
    ensures AllOfFamily(FamilyCommands(listing, node, ethMap, row, f), f)
    ensures !LaneEnters(row, f) ==> forall c | c in FamilyCommands(listing, node, ethMap, row, f) :: c.RouteReplace?
  {
    hide TableCommands, RuleCommands, LocalOriginCommands, HasDefault;
    var groups, sources := LaneGroups(row, f), [row.ifname] + row.shared;
    if groups != map[] {
      TableOfFamily(f, row, listing(groups.Keys));
      RulesOfFamily(node, ethMap, row, f, sources);
      LocalOriginOfFamily(node, ethMap, row, f, SortedNames(set n | n in sources), node.dnsOutgoing);
    }
  }

  lemma LaneFillsTable(
      listing: set<Cidr> -> seq<Cidr>, node: Node, ethMap: EthMap, row: LaneRow, t: int, f: Family)
    requires ValidNode(node) && IsListing(listing) && RowOfNode(node, ethMap, row)
    ensures (exists c :: InLane(listing, node, ethMap, row, c) && Fills(c, t, f))
            <==> t == row.table && LaneFills(row, f)
  {
    hide FamilyCommands, HasDefault, ValidNode, IsListing, LaneFills, LaneEnters;
    LaneIsEnteredIff(listing, node, ethMap, row, f);
    if c :| InLane(listing, node, ethMap, row, c) && Fills(c, t, f) {
      LaneCommand(listing, node, ethMap, row, c, f);
      assert FillsTable(row, f, c);
    }
    if LaneFills(row, f) && t == row.table {
      var c :| c in FamilyCommands(listing, node, ethMap, row, f) && FillsTable(row, f, c);
      assert InLane(listing, node, ethMap, row, c) && Fills(c, t, f);
    }
  }

  lemma LaneEntersTable(
      listing: set<Cidr> -> seq<Cidr>, node: Node, ethMap: EthMap, row: LaneRow, t: int, f: Family)
    requires ValidNode(node) && IsListing(listing) && RowOfNode(node, ethMap, row)
    ensures (exists c :: InLane(listing, node, ethMap, row, c) && LeadsTo(c, t, f)) <==>
              t == row.table && LaneEnters(row, f)
  {
    hide FamilyCommands, HasDefault, ValidNode, IsListing, LaneFills, LaneEnters;
    LaneIsEnteredIff(listing, node, ethMap, row, f);
    LaneCommandsOfFamily(listing, node, ethMap, row, f);
    if c :| InLane(listing, node, ethMap, row, c) && LeadsTo(c, t, f) {
      LaneCommand(listing, node, ethMap, row, c, f);
    }
    if LaneEnters(row, f) && t == row.table {
      var c :| c in FamilyCommands(listing, node, ethMap, row, f) && Enters(row, f, c);
      assert InLane(listing, node, ethMap, row, c) && LeadsTo(c, t, f);
    }
  }

  /** A command of a lane that is about family `f` is among the lane's commands for it, at the lane's priority. */
  lemma LaneCommand(listing: set<Cidr> -> seq<Cidr>, node: Node, ethMap: EthMap, row: LaneRow, c: Command, f: Family)
    requires ValidNode(node) && IsListing(listing) && InLane(listing, node, ethMap, row, c)
    ensures AtLanePriority(row, c)
    ensures OfFamily(c, f) ==> c in FamilyCommands(listing, node, ethMap, row, f)
  {
    hide FamilyCommands, ValidNode, IsListing;
    LaneCommandsOfFamily(listing, node, ethMap, row, V4);
    LaneCommandsOfFamily(listing, node, ethMap, row, V6);
    LaneCommandsAtLanePriority(listing, node, ethMap, row, V4);
    LaneCommandsAtLanePriority(listing, node, ethMap, row, V6);
  }

  // ------------------------------------------------------------------- a whole rendering

  /** Some lane with this table fills it. */
  ghost predicate FilledByLane(rows: seq<LaneRow>, t: int, f: Family) {
    exists row :: row in rows && row.table == t && LaneFills(row, f)
  }

  ghost predicate EnteredByLane(rows: seq<LaneRow>, t: int, f: Family) {
    exists row :: row in rows && row.table == t && LaneEnters(row, f)
  }

  /** An accepted selector of the family names the table. */
  ghost predicate EnteredBySelector(node: Node, ethMap: EthMap, raw: seq<RawSelector>, t: int, f: Family) {
    exists s, v :: s in raw && ValidateSelector(node, ethMap, s) == Ok(v) && v.tableId == t && v.family == f
  }

  /** Phase 3 or 4 claims some key for the table. */
  ghost predicate EnteredByClaim(
      listing: set<Cidr> -> seq<Cidr>, ethMap: EthMap, rows: seq<LaneRow>, t: int, f: Family)
  {
    exists r :: r in FirstPerKey(SharedAndCross(listing, ethMap, rows)) && r.table == t && r.family == f
  }

  /** A table is filled exactly by the lanes that share it. */
  lemma TableFilledIff(
      listing: set<Cidr> -> seq<Cidr>, node: Node, ethMap: EthMap, selected: seq<SelectorRule>, rows: seq<LaneRow>,
      t: int, f: Family)
    requires ValidNode(node) && IsListing(listing) && forall row | row in rows :: RowOfNode(node, ethMap, row)
    ensures TableFilled(LaneRendering(listing, node, ethMap, selected, rows), t, f) <==> FilledByLane(rows, t, f)
  {
    hide Phase2, InLane, LaneFills, SharedAndCross, FirstPerKey, ValidNode, IsListing, RowOfNode;
    var cmds := LaneRendering(listing, node, ethMap, selected, rows);
    if c :| c in cmds && Fills(c, t, f) {
      Phase2Members(listing, node, ethMap, rows, |rows|, c);
      var i :| 0 <= i < |rows| && InLane(listing, node, ethMap, rows[i], c);
      LaneFillsTable(listing, node, ethMap, rows[i], t, f);
    }
    if row :| row in rows && row.table == t && LaneFills(row, f) {
      LaneFillsTable(listing, node, ethMap, row, t, f);
      var c :| InLane(listing, node, ethMap, row, c) && Fills(c, t, f);
      var i :| 0 <= i < |rows| && rows[i] == row;
      Phase2Members(listing, node, ethMap, rows, |rows|, c);
      assert c in cmds;
    }
  }

  /** A table is entered exactly by a lane that shares it, a selector, or a claim. */
  lemma TableEnteredIff(
      listing: set<Cidr> -> seq<Cidr>, node: Node, ethMap: EthMap, selected: seq<SelectorRule>, rows: seq<LaneRow>,
      t: int, f: Family)
    requires ValidNode(node) && IsListing(listing) && forall row | row in rows :: RowOfNode(node, ethMap, row)
    ensures TableEntered(LaneRendering(listing, node, ethMap, selected, rows), t, f)
       <==> || EnteredByLane(rows, t, f) || EnteredByClaim(listing, ethMap, rows, t, f)
            || exists x :: x in selected && x.table == t && x.family == f
  {
    hide Phase2, InLane, LaneEnters, SharedAndCross, FirstPerKey, ValidNode, IsListing, RowOfNode;
    var cmds := LaneRendering(listing, node, ethMap, selected, rows);
    if c :| c in cmds && LeadsTo(c, t, f) {
      EntrySource(listing, node, ethMap, selected, rows, t, f, c);
    }
    if row :| row in rows && row.table == t && LaneEnters(row, f) {
      LaneEntersTable(listing, node, ethMap, row, t, f);
      var c :| InLane(listing, node, ethMap, row, c) && LeadsTo(c, t, f);
      var i :| 0 <= i < |rows| && rows[i] == row;
      Phase2Members(listing, node, ethMap, rows, |rows|, c);
      assert c in cmds;
    }
    var claimed := FirstPerKey(SharedAndCross(listing, ethMap, rows));
    if r :| r in claimed && r.table == t && r.family == f {
      var i :| 0 <= i < |claimed| && claimed[i] == r;
      assert ToRules(claimed)[i] == ToRule(r);
      assert ToRule(r) in cmds && LeadsTo(ToRule(r), t, f);
    }
    if x :| x in selected && x.table == t && x.family == f {
      var i :| 0 <= i < |selected| && selected[i] == x;
      assert Selecteds(selected)[i] == Selected(x);
      assert Selected(x) in cmds && LeadsTo(Selected(x), t, f);
    }
  }

  lemma EntrySource(
      listing: set<Cidr> -> seq<Cidr>, node: Node, ethMap: EthMap, selected: seq<SelectorRule>, rows: seq<LaneRow>,
      t: int, f: Family, c: Command)
    requires ValidNode(node) && IsListing(listing) && forall row | row in rows :: RowOfNode(node, ethMap, row)
    requires LeadsTo(c, t, f)
    ensures c in LaneRendering(listing, node, ethMap, selected, rows) ==>
              || EnteredByLane(rows, t, f) || EnteredByClaim(listing, ethMap, rows, t, f)
              || exists x :: x in selected && x.table == t && x.family == f
  {
    hide Phase2, InLane, LaneEnters, SharedAndCross, FirstPerKey, ValidNode, IsListing, RowOfNode;
    if c in Phase2(listing, node, ethMap, rows, |rows|) {
      Phase2Members(listing, node, ethMap, rows, |rows|, c);
      var i :| 0 <= i < |rows| && InLane(listing, node, ethMap, rows[i], c);
      LaneEntersTable(listing, node, ethMap, rows[i], t, f);
    } else if c in ToRules(FirstPerKey(SharedAndCross(listing, ethMap, rows))) {
      var claimed := FirstPerKey(SharedAndCross(listing, ethMap, rows));
      assert c.rule in claimed;
    } else if c in Selecteds(selected) {
      assert c.selector in selected;
    }
  }

  /** No rule of the rendering leads into a table without a route or a blackhole. */
  ghost predicate DeniesByDefault(cmds: seq<Command>) {
    forall t, f | TableEntered(cmds, t, f) :: TableFilled(cmds, t, f)
  }

  /**
   * A rendering denies by default if and only if every accepted selector names a table
   * that some lane fills for its family, and every lane without any route, uplinks
   * aside, shares its table with one that has IPv6 routes.
   */
  lemma DenyByDefaultIff(
      listing: set<Cidr> -> seq<Cidr>, node: Node, ethMap: EthMap, raw: seq<RawSelector>, cmds: seq<Command>)
    requires ValidNode(node) && IsListing(listing) && LaneRows(node, ethMap).Ok?
    ensures IsRendered(listing, node, ethMap, raw, cmds) ==>
              (var rows := LaneRows(node, ethMap).value;
               DeniesByDefault(cmds)
               <==> && (forall t, f | EnteredBySelector(node, ethMap, raw, t, f) :: FilledByLane(rows, t, f))
                    && (forall row | row in rows && row.kind != AccessUplink
                                     && row.routes4 == map[] && row.routes6 == map[] ::
                          FilledByLane(rows, row.table, V6)))
  {
    if IsRendered(listing, node, ethMap, raw, cmds) {
      var rows := LaneRows(node, ethMap).value;
      RowsOfNode(node, ethMap);
      hide LaneRows;
      var selectors, selected :|
        && Accepted(node, ethMap, raw, selectors) && RendersSelectors(selectors, selected)
        && cmds == LaneRendering(listing, node, ethMap, selected, rows);
      forall t, f
        ensures TableFilled(cmds, t, f) <==> FilledByLane(rows, t, f)
        ensures TableEntered(cmds, t, f) <==>
                  || EnteredByLane(rows, t, f) || EnteredByClaim(listing, ethMap, rows, t, f)
                  || EnteredBySelector(node, ethMap, raw, t, f)
      {
        TableFilledIff(listing, node, ethMap, selected, rows, t, f);
        TableEnteredIff(listing, node, ethMap, selected, rows, t, f);
        SelectorsEnter(node, ethMap, raw, selectors, selected, t, f);
      }
      hide LaneRendering, Accepted, RendersSelectors, TableFilled, TableEntered, EnteredBySelector;
      EntriesAreFilledIff(listing, node, ethMap, raw, rows);
    }
  }

  lemma SelectorsEnter(
      node: Node, ethMap: EthMap, raw: seq<RawSelector>, selectors: seq<Selector>, selected: seq<SelectorRule>,
      t: int, f: Family)
    requires RendersSelectors(selectors, selected) && |selectors| == |raw|
    requires forall i | 0 <= i < |raw| :: ValidateSelector(node, ethMap, raw[i]) == Ok(selectors[i])
    ensures (exists x :: x in selected && x.table == t && x.family == f) <==> EnteredBySelector(node, ethMap, raw, t, f)
  {
    hide ValidateSelector;
    if x :| x in selected && x.table == t && x.family == f {
      var s :| s in selectors && x == RuleOfSelector(s);
      var i :| 0 <= i < |selectors| && selectors[i] == s;
      assert raw[i] in raw && ValidateSelector(node, ethMap, raw[i]) == Ok(s);
    }
    if s, v :| s in raw && ValidateSelector(node, ethMap, s) == Ok(v) && v.tableId == t && v.family == f {
      var i :| 0 <= i < |raw| && raw[i] == s;
      assert selectors[i] in selectors && RuleOfSelector(selectors[i]) in selected;
    }
  }

  /** Lanes and claims enter filled tables, except for IPv6 in a lane without any route. */
  lemma EntriesAreFilledIff(
      listing: set<Cidr> -> seq<Cidr>, node: Node, ethMap: EthMap, raw: seq<RawSelector>, rows: seq<LaneRow>)
    requires IsListing(listing)
    ensures (forall t, f | || EnteredByLane(rows, t, f) || EnteredByClaim(listing, ethMap, rows, t, f)
                           || EnteredBySelector(node, ethMap, raw, t, f) :: FilledByLane(rows, t, f))
       <==> && (forall t, f | EnteredBySelector(node, ethMap, raw, t, f) :: FilledByLane(rows, t, f))
            && (forall row | row in rows && row.kind != AccessUplink && row.routes4 == map[] && row.routes6 == map[] ::
                  FilledByLane(rows, row.table, V6))
  {
    hide EnteredBySelector, FirstPerKey, SharedAndCross, IsListing;
    forall t, f | EnteredByClaim(listing, ethMap, rows, t, f)
      ensures FilledByLane(rows, t, f)
    {
      var r :| r in FirstPerKey(SharedAndCross(listing, ethMap, rows)) && r.table == t && r.family == f;
      ClaimIsCovered(listing, ethMap, rows, r);
      var row :| row in rows && row.table == r.table && Covers(row, KeyOf(r));
      assert LaneFills(row, f);
    }
    hide EnteredByClaim;
    forall row, f | row in rows && LaneEnters(row, f) && !LaneFills(row, f)
      ensures f == V6 && row.kind != AccessUplink && row.routes4 == map[] && row.routes6 == map[]
    {
    }
    forall row | row in rows && row.kind != AccessUplink && row.routes4 == map[] && row.routes6 == map[]
      ensures EnteredByLane(rows, row.table, V6)
    {
      assert LaneEnters(row, V6);
    }
    forall t, f | EnteredByLane(rows, t, f) && !FilledByLane(rows, t, f)
      ensures f == V6 && exists row :: row in rows && row.table == t && row.kind != AccessUplink
                                       && row.routes4 == map[] && row.routes6 == map[]
    {
      var row :| row in rows && row.table == t && LaneEnters(row, f);
      assert !LaneFills(row, f);
    }
    hide EnteredByLane, FilledByLane, LaneEnters, LaneFills;
  }
}
