/**
 * Phase 3 of `render` in clabgen/s88/CM/linux_policy_routes.py: destination rules on
 * interfaces that several lanes share.
 *
 * `listing` lists the keys of a route table; the source sorts their text, and every
 * result here holds for any listing.
 */
module SharedRules {
  import opened Common
  import opened Sorting
  import opened Addressing
  import opened NodeModel
  import opened PolicyGroups
  import opened PolicyLanes
  import opened DestinationRules

  /** The candidates that one table offers on some ingress interfaces, IPv4 before IPv6. */
  function TableRules(listing: set<Cidr> -> seq<Cidr>, row: LaneRow, eths: seq<Name>, priority: int): seq<DestRule> {
    var (d4, d6) := (listing(row.routes4.Keys), listing(row.routes6.Keys));
    RulesFor(V4, d4, eths, priority, row.table, |d4|) + RulesFor(V6, d6, eths, priority, row.table, |d6|)
  }

  predicate Covers(row: LaneRow, k: Key) {
    k.dst in LaneGroups(row, k.family) && k.dst != DefaultOf(k.family)
  }

  lemma TableRulesMembers(listing: set<Cidr> -> seq<Cidr>, row: LaneRow, eths: seq<Name>, priority: int, r: DestRule)
    requires IsListing(listing)
    ensures r in TableRules(listing, row, eths, priority)
       <==> Covers(row, KeyOf(r)) && r.iif in eths && r.priority == priority && r.table == row.table
  {
    var (d4, d6) := (listing(row.routes4.Keys), listing(row.routes6.Keys));
    assert d4[..|d4|] == d4 && d6[..|d6|] == d6;
    RulesForMembers(V4, d4, eths, priority, row.table, |d4|, r);
    RulesForMembers(V6, d6, eths, priority, row.table, |d6|, r);
  }

  method ClaimTable(listing: set<Cidr> -> seq<Cidr>, row: LaneRow, eths: seq<Name>, priority: int,
                    claimed0: set<Key>, cmds0: seq<DestRule>, ghost done: seq<DestRule>)
      returns (claimed: set<Key>, cmds: seq<DestRule>)
    requires ClaimState(done, claimed0, cmds0)
    ensures ClaimState(done + TableRules(listing, row, eths, priority), claimed, cmds)
  {
    var d4, d6 := listing(row.routes4.Keys), listing(row.routes6.Keys);
    ghost var done4 := done + RulesFor(V4, d4, eths, priority, row.table, |d4|);
    assert done4 + RulesFor(V6, d6, eths, priority, row.table, |d6|) == done + TableRules(listing, row, eths, priority);
    hide ClaimState;
    claimed, cmds := ClaimDestinations(V4, d4, eths, priority, row.table, claimed0, cmds0, done);
    claimed, cmds := ClaimDestinations(V6, d6, eths, priority, row.table, claimed, cmds, done4);
  }

  // ------------------------------------------------------------------------ Phase 3

  /** Python's stable `sorted(..., reverse=True)` by priority: equal priorities keep their order. */
  function Insert(row: LaneRow, sorted: seq<LaneRow>): seq<LaneRow> {
    if sorted == [] || sorted[0].priority <= row.priority then [row] + sorted
    else [sorted[0]] + Insert(row, sorted[1..])
  }

  function SortDescending(rows: seq<LaneRow>): seq<LaneRow> {
    if rows == [] then [] else Insert(rows[0], SortDescending(rows[1..]))
  }

  function EthsOf(ethMap: EthMap, names: seq<Name>): seq<Name> {
    if names == [] then []
    else (if names[0] in ethMap then [ethMap[names[0]]] else []) + EthsOf(ethMap, names[1..])
  }

  /** The candidates of the lanes on their shared interfaces, lane after lane. */
  function SharedCandidates(listing: set<Cidr> -> seq<Cidr>, ethMap: EthMap, rows: seq<LaneRow>): seq<DestRule> {
    if rows == [] then []
    else TableRules(listing, rows[0], EthsOf(ethMap, rows[0].shared), rows[0].priority)
         + SharedCandidates(listing, ethMap, rows[1..])
  }

  method SharedInterfaceRules(listing: set<Cidr> -> seq<Cidr>, ethMap: EthMap, lanes: seq<LaneRow>)
      returns (claimed: set<Key>, cmds: seq<DestRule>)
    ensures ClaimState(SharedCandidates(listing, ethMap, SortDescending(lanes)), claimed, cmds)
  {
    hide TableRules, EthsOf, SortDescending;
    var rows := SortDescending(lanes);
    ghost var all := SharedCandidates(listing, ethMap, rows);
    ghost var done: seq<DestRule> := [];
    claimed, cmds := {}, [];
    assert ClaimState(done, claimed, cmds);
    hide ClaimState;
    for i := 0 to |rows|
      invariant ClaimState(done, claimed, cmds)
      invariant done + SharedCandidates(listing, ethMap, rows[i..]) == all
    {
      var row := rows[i];
      assert rows[i..][0] == row && rows[i..][1..] == rows[i + 1..];
      var eths := EthsOf(ethMap, row.shared);
      claimed, cmds := ClaimTable(listing, row, eths, row.priority, claimed, cmds, done);
      done := done + TableRules(listing, row, eths, row.priority);
    }
    assert done == all;
  }

  /** The lane has a non-default route for the key's destination and shares its ingress. */
  predicate Serves(ethMap: EthMap, row: LaneRow, k: Key) {
    Covers(row, k) && k.iif in EthsOf(ethMap, row.shared)
  }

  function Serving(ethMap: EthMap, k: Key): LaneRow -> bool {
    row => Serves(ethMap, row, k)
  }

  function FirstSuch(rows: seq<LaneRow>, p: LaneRow -> bool): Option<LaneRow> {
    if rows == [] then None
    else if p(rows[0]) then Some(rows[0])
    else FirstSuch(rows[1..], p)
  }

  function RuleOf(row: LaneRow, k: Key): DestRule {
    DestRule(k.family, k.dst, k.iif, row.priority, row.table)
  }

  lemma {:induction false} FirstCandidate(listing: set<Cidr> -> seq<Cidr>, ethMap: EthMap, rows: seq<LaneRow>, k: Key)
    requires IsListing(listing)
    ensures FirstWith(SharedCandidates(listing, ethMap, rows), k)
         == match FirstSuch(rows, Serving(ethMap, k)) case None => None case Some(row) => Some(RuleOf(row, k))
  {
    if rows != [] {
      var eths, priority := EthsOf(ethMap, rows[0].shared), rows[0].priority;
      FirstWithAppend(TableRules(listing, rows[0], eths, priority), SharedCandidates(listing, ethMap, rows[1..]), k);
      FirstCandidate(listing, ethMap, rows[1..], k);
      FirstOfTable(listing, rows[0], eths, priority, k);
    }
  }

  lemma FirstOfTable(listing: set<Cidr> -> seq<Cidr>, row: LaneRow, eths: seq<Name>, priority: int, k: Key)
    requires IsListing(listing)
    ensures FirstWith(TableRules(listing, row, eths, priority), k)
         == if Covers(row, k) && k.iif in eths
            then Some(DestRule(k.family, k.dst, k.iif, priority, row.table)) else None
  {
    var rules, r := TableRules(listing, row, eths, priority), DestRule(k.family, k.dst, k.iif, priority, row.table);
    TableRulesMembers(listing, row, eths, priority, r);
    var first := FirstWith(rules, k);
    if first.Some? {
      TableRulesMembers(listing, row, eths, priority, first.value);
    }
  }

  /** Row `i` satisfies `p` at the highest priority number, and is the first to do so. */
  ghost predicate IsBest(lanes: seq<LaneRow>, p: LaneRow -> bool, i: nat) {
    && i < |lanes| && p(lanes[i])
    && forall j | 0 <= j < |lanes| && p(lanes[j]) ::
         lanes[j].priority < lanes[i].priority || (lanes[j].priority == lanes[i].priority && i <= j)
  }

  /** `r` leads to the table of the best lane that serves its destination on its ingress. */
  ghost predicate IsBestRule(ethMap: EthMap, lanes: seq<LaneRow>, r: DestRule, i: nat) {
    IsBest(lanes, Serving(ethMap, KeyOf(r)), i) && r == RuleOf(lanes[i], KeyOf(r))
  }

  predicate Descending(rows: seq<LaneRow>) {
    forall i | 0 <= i < |rows| - 1 :: rows[i].priority >= rows[i + 1].priority
  }

  /** Inserting in front of the sorted rest: the new row wins ties. */
  lemma {:induction false} FirstSuchInsert(row: LaneRow, sorted: seq<LaneRow>, p: LaneRow -> bool)
    requires Descending(sorted)
    ensures Descending(Insert(row, sorted))
    ensures FirstSuch(Insert(row, sorted), p)
         == (var rest := FirstSuch(sorted, p);
             if p(row) && (rest.None? || rest.value.priority <= row.priority) then Some(row) else rest)
  {
    if sorted == [] || sorted[0].priority <= row.priority {
      assert ([row] + sorted)[1..] == sorted;
      FirstSuchBounded(sorted, p);
    } else {
      FirstSuchInsert(row, sorted[1..], p);
      var tail := Insert(row, sorted[1..]);
      assert ([sorted[0]] + tail)[1..] == tail;
      assert tail[0] == row || (sorted[1..] != [] && tail[0] == sorted[1]);
    }
  }

  lemma {:induction false} FirstSuchBounded(rows: seq<LaneRow>, p: LaneRow -> bool)
    requires Descending(rows)
    ensures FirstSuch(rows, p).Some? ==> FirstSuch(rows, p).value.priority <= rows[0].priority
  {
    if |rows| > 1 && !p(rows[0]) {
      FirstSuchBounded(rows[1..], p);
      assert rows[0].priority >= rows[1].priority;
    }
  }

  lemma {:induction false} FirstSuchIsBest(lanes: seq<LaneRow>, p: LaneRow -> bool) returns (i: nat)
    ensures Descending(SortDescending(lanes))
    ensures FirstSuch(SortDescending(lanes), p).None? ==> forall j | 0 <= j < |lanes| :: !p(lanes[j])
    ensures FirstSuch(SortDescending(lanes), p).Some? ==>
              IsBest(lanes, p, i) && FirstSuch(SortDescending(lanes), p) == Some(lanes[i])
  {
    i := 0;
    if lanes != [] {
      var rest := lanes[1..];
      var m := FirstSuchIsBest(rest, p);
      FirstSuchInsert(lanes[0], SortDescending(rest), p);
      var best := FirstSuch(SortDescending(rest), p);
      assert forall j | 1 <= j < |lanes| :: lanes[j] == rest[j - 1];
      if !(p(lanes[0]) && (best.None? || best.value.priority <= lanes[0].priority)) {
        i := m + 1;
      }
    }
  }

  /**
   * Phase 3 computes an argmax: a (destination, shared ingress) pair that some lane
   * serves gets exactly one rule, to the table of the serving lane with the highest
   * priority number, ties going to the lane listed first; no other pair gets a rule.
   */
  lemma SharedRulesAreArgmax(listing: set<Cidr> -> seq<Cidr>, ethMap: EthMap, lanes: seq<LaneRow>,
                             claimed: set<Key>, cmds: seq<DestRule>, r: DestRule)
    requires IsListing(listing)
    requires ClaimState(SharedCandidates(listing, ethMap, SortDescending(lanes)), claimed, cmds)
    ensures r in cmds <==> exists i: nat :: IsBestRule(ethMap, lanes, r, i)
    ensures DistinctKeys(cmds)
  {
    var k := KeyOf(r);
    var candidates := SharedCandidates(listing, ethMap, SortDescending(lanes));
    KeptIsFirst(candidates, r);
    FirstPerKeyDistinct(candidates);
    FirstCandidate(listing, ethMap, SortDescending(lanes), k);
    var w := FirstSuchIsBest(lanes, Serving(ethMap, k));
    assert FirstSuch(SortDescending(lanes), Serving(ethMap, k)).Some? ==>
        (r == RuleOf(lanes[w], k) <==> IsBestRule(ethMap, lanes, r, w));
    forall i: nat, j: nat | IsBest(lanes, Serving(ethMap, k), i) && IsBest(lanes, Serving(ethMap, k), j)
      ensures i == j
    {
    }
  }

  /** On rows in name order a tie goes to the lane whose interface name sorts first. */
  lemma TiesGoToLeastName(lanes: seq<LaneRow>, p: LaneRow -> bool, i: nat, j: nat)
    requires NamesRise(lanes) && IsBest(lanes, p, i)
    requires j < |lanes| && p(lanes[j]) && lanes[j].priority == lanes[i].priority
    ensures NameLe(lanes[i].ifname, lanes[j].ifname)
  {
    NameLeLaws(lanes[i].ifname, lanes[i].ifname, lanes[i].ifname);
  }

  lemma {:induction false} SortKeepsRows(lanes: seq<LaneRow>)
    ensures forall row :: row in SortDescending(lanes) <==> row in lanes
  {
    if lanes != [] {
      SortKeepsRows(lanes[1..]);
      InsertKeepsRows(lanes[0], SortDescending(lanes[1..]));
      assert lanes == [lanes[0]] + lanes[1..];
    }
  }

  lemma {:induction false} InsertKeepsRows(row: LaneRow, sorted: seq<LaneRow>)
    ensures forall x :: x in Insert(row, sorted) <==> x == row || x in sorted
  {
    if !(sorted == [] || sorted[0].priority <= row.priority) {
      InsertKeepsRows(row, sorted[1..]);
      assert sorted == [sorted[0]] + sorted[1..];
    }
  }

  /** The ingress names are the runtime names of the mapped ones among the interfaces. */
  lemma {:induction false} EthsMembers(ethMap: EthMap, names: seq<Name>, eth: Name)
    ensures eth in EthsOf(ethMap, names) <==> exists n :: n in names && n in ethMap && ethMap[n] == eth
  {
    if names != [] {
      EthsMembers(ethMap, names[1..], eth);
      assert names == [names[0]] + names[1..];
    }
  }

  /** In fields: a lane serves a key whose destination, no default, it routes, entering an interface it shares. */
  lemma ServesIff(ethMap: EthMap, row: LaneRow, k: Key)
    ensures Serves(ethMap, row, k) <==>
              && k.dst in (if k.family == V4 then row.routes4 else row.routes6) && k.dst != Cidr(Ip(k.family, 0), 0)
              && exists n :: n in row.shared && n in ethMap && ethMap[n] == k.iif
  {
    EthsMembers(ethMap, row.shared, k.iif);
  }
}
