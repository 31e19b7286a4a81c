/**
 * Phase 4 of `render` in clabgen/s88/CM/linux_policy_routes.py: cross rules between the
 * upstream and downstream lanes of one access, which go on with the claims of Phase 3.
 */
module CrossLanes {
  import opened Common
  import opened Sorting
  import opened Addressing
  import opened NodeModel
  import opened PolicyGroups
  import opened PolicyLanes
  import opened DestinationRules
  import opened SharedRules

  predicate IsUpstream(row: LaneRow, access: Name) {
    row.access == Some(access) && row.kind in {AccessUplink, Access} && (row.routes4 != map[] || row.routes6 != map[])
  }

  predicate IsDownstream(row: LaneRow, access: Name) {
    row.access == Some(access) && row.kind in {Access, AccessEdge} && (row.routes4 != map[] || row.routes6 != map[])
  }

  function Upstream(rows: seq<LaneRow>, access: Name): seq<LaneRow> {
    if rows == [] then []
    else (if IsUpstream(rows[0], access) then [rows[0]] else []) + Upstream(rows[1..], access)
  }

  function Downstream(rows: seq<LaneRow>, access: Name): seq<LaneRow> {
    if rows == [] then []
    else (if IsDownstream(rows[0], access) then [rows[0]] else []) + Downstream(rows[1..], access)
  }

  lemma {:induction false} StreamMembers(rows: seq<LaneRow>, access: Name, row: LaneRow)
    ensures row in Upstream(rows, access) <==> row in rows && IsUpstream(row, access)
    ensures row in Downstream(rows, access) <==> row in rows && IsDownstream(row, access)
  {
    if rows != [] {
      StreamMembers(rows[1..], access, row);
      assert rows == [rows[0]] + rows[1..];
    }
  }

  /** The accesses that have both an upstream and a downstream lane. */
  function CrossAccesses(rows: seq<LaneRow>): set<Name> {
    set row | row in rows && row.access.Some? && Upstream(rows, row.access.value) != []
              && Downstream(rows, row.access.value) != [] :: row.access.value
  }

  /** Return traffic entering `us` for the first `count` downstream lanes, at `us`'s priority. */
  function CrossFrom(listing: set<Cidr> -> seq<Cidr>, us: LaneRow, downs: seq<LaneRow>, count: nat): seq<DestRule>
    requires count <= |downs|
  {
    if count == 0 then []
    else
      var before, ds := CrossFrom(listing, us, downs, count - 1), downs[count - 1];
      if us.table == ds.table then before else before + TableRules(listing, ds, [us.eth], us.priority)
  }

  function CrossOfAccess(listing: set<Cidr> -> seq<Cidr>, ups: seq<LaneRow>, downs: seq<LaneRow>,
                         count: nat): seq<DestRule>
    requires count <= |ups|
  {
    if count == 0 then []
    else CrossOfAccess(listing, ups, downs, count - 1) + CrossFrom(listing, ups[count - 1], downs, |downs|)
  }

  function CrossOf(listing: set<Cidr> -> seq<Cidr>, rows: seq<LaneRow>, access: Name): seq<DestRule> {
    var ups := Upstream(rows, access);
    CrossOfAccess(listing, ups, Downstream(rows, access), |ups|)
  }

  function CrossCandidates(listing: set<Cidr> -> seq<Cidr>, rows: seq<LaneRow>, accesses: seq<Name>,
                           count: nat): seq<DestRule>
    requires count <= |accesses|
  {
    if count == 0 then []
    else CrossCandidates(listing, rows, accesses, count - 1) + CrossOf(listing, rows, accesses[count - 1])
  }

  /** The loop over the downstream lanes for one upstream lane. */
  method ClaimCrossFrom(listing: set<Cidr> -> seq<Cidr>, us: LaneRow, downs: seq<LaneRow>,
                        claimed0: set<Key>, cmds0: seq<DestRule>, ghost done: seq<DestRule>)
      returns (claimed: set<Key>, cmds: seq<DestRule>)
    requires ClaimState(done, claimed0, cmds0)
    ensures ClaimState(done + CrossFrom(listing, us, downs, |downs|), claimed, cmds)
  {
    hide ClaimState, TableRules;
    claimed, cmds := claimed0, cmds0;
    assert done + CrossFrom(listing, us, downs, 0) == done;
    for d := 0 to |downs|
      invariant ClaimState(done + CrossFrom(listing, us, downs, d), claimed, cmds)
    {
      var ds := downs[d];
      if us.table == ds.table {
        continue;
      }
      ghost var soFar := done + CrossFrom(listing, us, downs, d);
      claimed, cmds := ClaimTable(listing, ds, [us.eth], us.priority, claimed, cmds, soFar);
      assert soFar + TableRules(listing, ds, [us.eth], us.priority) == done + CrossFrom(listing, us, downs, d + 1);
    }
  }

  method ClaimCrossOfAccess(listing: set<Cidr> -> seq<Cidr>, ups: seq<LaneRow>, downs: seq<LaneRow>,
                            claimed0: set<Key>, cmds0: seq<DestRule>, ghost done: seq<DestRule>)
      returns (claimed: set<Key>, cmds: seq<DestRule>)
    requires ClaimState(done, claimed0, cmds0)
    ensures ClaimState(done + CrossOfAccess(listing, ups, downs, |ups|), claimed, cmds)
  {
    hide ClaimState, CrossFrom;
    claimed, cmds := claimed0, cmds0;
    assert done + CrossOfAccess(listing, ups, downs, 0) == done;
    for u := 0 to |ups|
      invariant ClaimState(done + CrossOfAccess(listing, ups, downs, u), claimed, cmds)
    {
      ghost var before := done + CrossOfAccess(listing, ups, downs, u);
      claimed, cmds := ClaimCrossFrom(listing, ups[u], downs, claimed, cmds, before);
      assert before + CrossFrom(listing, ups[u], downs, |downs|) == done + CrossOfAccess(listing, ups, downs, u + 1);
    }
  }

  function SharedAndCross(listing: set<Cidr> -> seq<Cidr>, ethMap: EthMap, lanes: seq<LaneRow>): seq<DestRule> {
    var rows := SortDescending(lanes);
    var accesses := SortedNames(CrossAccesses(rows));
    SharedCandidates(listing, ethMap, rows) + CrossCandidates(listing, rows, accesses, |accesses|)
  }

  /** Phase 4 goes on with the claims and rules that Phase 3 left. */
  method CrossRules(listing: set<Cidr> -> seq<Cidr>, ethMap: EthMap, lanes: seq<LaneRow>,
                    claimed0: set<Key>, cmds0: seq<DestRule>)
      returns (claimed: set<Key>, cmds: seq<DestRule>)
    requires ClaimState(SharedCandidates(listing, ethMap, SortDescending(lanes)), claimed0, cmds0)
    ensures ClaimState(SharedAndCross(listing, ethMap, lanes), claimed, cmds)
  {
    hide ClaimState, SortDescending, SharedCandidates, CrossAccesses, CrossOfAccess, Upstream, Downstream;
    claimed, cmds := claimed0, cmds0;
    var rows := SortDescending(lanes);
    var accesses := SortedNames(CrossAccesses(rows));
    ghost var shared := SharedCandidates(listing, ethMap, rows);
    assert shared + CrossCandidates(listing, rows, accesses, 0) == shared;
    for i := 0 to |accesses|
      invariant ClaimState(shared + CrossCandidates(listing, rows, accesses, i), claimed, cmds)
    {
      var ups, downs := Upstream(rows, accesses[i]), Downstream(rows, accesses[i]);
      ghost var soFar := shared + CrossCandidates(listing, rows, accesses, i);
      claimed, cmds := ClaimCrossOfAccess(listing, ups, downs, claimed, cmds, soFar);
      assert soFar + CrossOf(listing, rows, accesses[i]) == shared + CrossCandidates(listing, rows, accesses, i + 1);
    }
  }

  // ------------------------------------------------------- what a cross rule selects

  /** The lanes that `us` may send return traffic for the key to. */
  function Partner(us: LaneRow, k: Key): LaneRow -> bool {
    row => us.access.Some? && IsDownstream(row, us.access.value) && us.table != row.table && Covers(row, k)
  }

  lemma {:induction false} FirstFromUpstream(
      listing: set<Cidr> -> seq<Cidr>, us: LaneRow, downs: seq<LaneRow>, count: nat, k: Key)
    requires IsListing(listing) && count <= |downs| && us.access.Some?
    requires forall d | d in downs :: IsDownstream(d, us.access.value)
    ensures FirstWith(CrossFrom(listing, us, downs, count), k)
         == if k.iif != us.eth then None
            else match FirstSuch(downs[..count], Partner(us, k))
                 case None => None
                 case Some(ds) => Some(DestRule(k.family, k.dst, k.iif, us.priority, ds.table))
    decreases count
  {
    hide TableRules, FirstWith, IsListing, IsDownstream, Covers;
    if count > 0 {
      var ds := downs[count - 1];
      FirstFromUpstream(listing, us, downs, count - 1, k);
      FirstWithAppend(CrossFrom(listing, us, downs, count - 1), TableRules(listing, ds, [us.eth], us.priority), k);
      FirstOfTable(listing, ds, [us.eth], us.priority, k);
      FirstSuchAppend(downs[..count - 1], ds, Partner(us, k));
      assert downs[..count] == downs[..count - 1] + [ds];
    }
  }

  lemma {:induction false} FirstSuchAppend(rows: seq<LaneRow>, row: LaneRow, p: LaneRow -> bool)
    ensures FirstSuch(rows + [row], p)
         == if FirstSuch(rows, p).Some? then FirstSuch(rows, p) else if p(row) then Some(row) else None
  {
    if rows == [] {
      assert rows + [row] == [row];
    } else {
      assert (rows + [row])[1..] == rows[1..] + [row];
      FirstSuchAppend(rows[1..], row, p);
    }
  }

  lemma {:induction false} FirstPartner(rows: seq<LaneRow>, us: LaneRow, k: Key)
    requires us.access.Some?
    ensures FirstSuch(Downstream(rows, us.access.value), Partner(us, k)) == FirstSuch(rows, Partner(us, k))
  {
    if rows != [] {
      FirstPartner(rows[1..], us, k);
      var head, tail := rows[0], Downstream(rows[1..], us.access.value);
      assert ([head] + tail)[1..] == tail && [] + tail == tail;
    }
  }

  /** The rule that return traffic for `k` entering `us` gets, if any. */
  function CrossRuleFor(rows: seq<LaneRow>, us: LaneRow, k: Key): Option<DestRule> {
    match FirstSuch(rows, Partner(us, k))
    case None => None
    case Some(ds) => Some(DestRule(k.family, k.dst, k.iif, us.priority, ds.table))
  }

  predicate Hit(ups: seq<LaneRow>, count: nat, eth: Name)
    requires count <= |ups|
  {
    exists i :: 0 <= i < count && ups[i].eth == eth
  }

  lemma FirstOfBoth(a: seq<DestRule>, b: seq<DestRule>, k: Key, r: Option<DestRule>, inA: bool, inB: bool)
    requires FirstWith(a, k) == if inA then r else None
    requires FirstWith(b, k) == if inB then r else None
    ensures FirstWith(a + b, k) == if inA || inB then r else None
  {
    FirstWithAppend(a, b, k);
  }

  lemma {:induction false} FirstOfAccess(
      listing: set<Cidr> -> seq<Cidr>, rows: seq<LaneRow>, access: Name, count: nat, k: Key, us: LaneRow)
    requires IsListing(listing) && count <= |Upstream(rows, access)|
    requires forall row | row in rows && row.eth == k.iif :: row == us
    ensures FirstWith(CrossOfAccess(listing, Upstream(rows, access), Downstream(rows, access), count), k)
         == if Hit(Upstream(rows, access), count, k.iif) then CrossRuleFor(rows, us, k) else None
    decreases count
  {
    hide CrossFrom, CrossRuleFor, FirstWith, IsListing, IsUpstream, IsDownstream, Upstream, Downstream;
    if count > 0 {
      var ups, downs := Upstream(rows, access), Downstream(rows, access);
      var last := ups[count - 1];
      FirstOfAccess(listing, rows, access, count - 1, k, us);
      FirstOfUpstream(listing, rows, access, last, k);
      StreamMembers(rows, access, last);
      assert Hit(ups, count, k.iif) <==> Hit(ups, count - 1, k.iif) || last.eth == k.iif;
      hide Hit;
      FirstOfBoth(CrossOfAccess(listing, ups, downs, count - 1), CrossFrom(listing, last, downs, |downs|), k,
                  CrossRuleFor(rows, us, k), Hit(ups, count - 1, k.iif), last.eth == k.iif);
    }
  }

  lemma FirstOfUpstream(listing: set<Cidr> -> seq<Cidr>, rows: seq<LaneRow>, access: Name, us: LaneRow, k: Key)
    requires IsListing(listing) && us in Upstream(rows, access)
    ensures var downs := Downstream(rows, access);
            FirstWith(CrossFrom(listing, us, downs, |downs|), k)
            == if k.iif == us.eth then CrossRuleFor(rows, us, k) else None
  {
    StreamMembers(rows, access, us);
    var downs := Downstream(rows, access);
    forall row | row in downs
      ensures IsDownstream(row, access)
    {
      StreamMembers(rows, access, row);
    }
    FirstFromUpstream(listing, us, downs, |downs|, k);
    assert downs[..|downs|] == downs;
    FirstPartner(rows, us, k);
  }

  lemma FirstOfCross(listing: set<Cidr> -> seq<Cidr>, rows: seq<LaneRow>, access: Name, k: Key, us: LaneRow)
    requires IsListing(listing)
    requires us in rows && us.eth == k.iif && forall row | row in rows && row.eth == k.iif :: row == us
    ensures FirstWith(CrossOf(listing, rows, access), k)
         == if IsUpstream(us, access) then CrossRuleFor(rows, us, k) else None
  {
    var ups := Upstream(rows, access);
    FirstOfAccess(listing, rows, access, |ups|, k, us);
    hide CrossOfAccess, CrossRuleFor, IsListing;
    StreamMembers(rows, access, us);
    if i :| 0 <= i < |ups| && ups[i].eth == k.iif {
      StreamMembers(rows, access, ups[i]);
    }
    if us in ups {
      var i :| 0 <= i < |ups| && ups[i] == us;
    }
  }

  lemma {:induction false} FirstCross(
      listing: set<Cidr> -> seq<Cidr>, rows: seq<LaneRow>, accesses: seq<Name>, count: nat, k: Key, us: LaneRow)
    requires IsListing(listing) && count <= |accesses|
    requires us in rows && us.eth == k.iif && forall row | row in rows && row.eth == k.iif :: row == us
    ensures FirstWith(CrossCandidates(listing, rows, accesses, count), k)
         == if us.access.Some? && us.access.value in accesses[..count] && IsUpstream(us, us.access.value)
            then CrossRuleFor(rows, us, k) else None
    decreases count
  {
    hide CrossOf, CrossRuleFor, IsListing, FirstWith;
    if count > 0 {
      var access := accesses[count - 1];
      FirstCross(listing, rows, accesses, count - 1, k, us);
      FirstOfCross(listing, rows, access, k, us);
      assert accesses[..count] == accesses[..count - 1] + [access];
      var visited := us.access.Some? && us.access.value in accesses[..count - 1] && IsUpstream(us, us.access.value);
      FirstOfBoth(CrossCandidates(listing, rows, accesses, count - 1), CrossOf(listing, rows, access), k,
                  CrossRuleFor(rows, us, k), visited, IsUpstream(us, access));
    } else {
      NoFirst(k);
    }
  }

  lemma NoFirst(k: Key)
    ensures FirstWith([], k) == None
  {
  }

  /** If `us` has a partner at all, its access is among those Phase 4 visits. */
  lemma PartnerAccessIsVisited(rows: seq<LaneRow>, us: LaneRow, k: Key)
    requires us in rows && us.access.Some? && IsUpstream(us, us.access.value) && FirstSuch(rows, Partner(us, k)).Some?
    ensures us.access.value in CrossAccesses(rows)
  {
    FirstPartner(rows, us, k);
    StreamMembers(rows, us.access.value, us);
  }

  ghost predicate AloneOn(rows: seq<LaneRow>, row: LaneRow) {
    row in rows && forall other | other in rows && other.eth == row.eth :: other == row
  }

  /** What Phases 3 and 4 claim for a key on a lane's own interface. */
  lemma ClaimOnOwnInterface(
      listing: set<Cidr> -> seq<Cidr>, ethMap: EthMap, rows: seq<LaneRow>, row: LaneRow, k: Key)
    requires IsListing(listing) && AloneOn(rows, row) && k.iif == row.eth
    ensures FirstWith(SharedAndCross(listing, ethMap, rows), k)
         == (var sorted := SortDescending(rows);
             match FirstSuch(sorted, Serving(ethMap, k))
             case Some(best) => Some(RuleOf(best, k))
             case None =>
               if row.access.Some? && IsUpstream(row, row.access.value) then CrossRuleFor(sorted, row, k) else None)
  {
    var sorted := SortDescending(rows);
    var accesses := SortedNames(CrossAccesses(sorted));
    SortKeepsRows(rows);
    FirstCandidate(listing, ethMap, sorted, k);
    FirstWithAppend(SharedCandidates(listing, ethMap, sorted),
                    CrossCandidates(listing, sorted, accesses, |accesses|), k);
    FirstCross(listing, sorted, accesses, |accesses|, k, row);
    assert accesses[..|accesses|] == accesses;
    if row.access.Some? && IsUpstream(row, row.access.value) && FirstSuch(sorted, Partner(row, k)).Some? {
      PartnerAccessIsVisited(sorted, row, k);
    }
    hide SharedCandidates, CrossCandidates, CrossAccesses, SortDescending, IsListing, IsUpstream, Serves;
  }

  // ------------------------------------------------------------- cross rules, in fields

  /** Return traffic that enters the lane may be sent on: it is an uplink or an access lane, with some route. */
  predicate SendsOn(us: LaneRow) {
    && us.access.Some? && (us.kind == AccessUplink || us.kind == Access)
    && (us.routes4 != map[] || us.routes6 != map[])
  }

  /**
   * The lanes it may be sent to: access or access-edge lanes of the same access that have
   * the destination, which is no default, in a table of their own.
   */
  function TakesFrom(us: LaneRow, k: Key): LaneRow -> bool {
    (ds: LaneRow) =>
      && ds.access == us.access && (ds.kind == Access || ds.kind == AccessEdge) && ds.table != us.table
      && k.dst in (if k.family == V4 then ds.routes4 else ds.routes6) && k.dst != Cidr(Ip(k.family, 0), 0)
  }

  lemma PartnerFields(us: LaneRow, k: Key, ds: LaneRow)
    ensures Partner(us, k)(ds) <==> us.access.Some? && TakesFrom(us, k)(ds)
    ensures us.access.Some? ==> (IsUpstream(us, us.access.value) <==> SendsOn(us))
  {
  }

  lemma SameBest(lanes: seq<LaneRow>, p: LaneRow -> bool, q: LaneRow -> bool, i: nat)
    requires forall row :: p(row) <==> q(row)
    ensures IsBest(lanes, p, i) <==> IsBest(lanes, q, i)
  {
  }

  /**
   * What Phase 4 adds for a key that no Phase 3 lane serves, on the interface of a single
   * lane: nothing unless that is an uplink or access lane with routes; else a rule at that
   * lane's own priority to the table of the best lane that takes the destination from it,
   * the one with the highest priority number.
   */
  lemma CrossRulesAreArgmax(listing: set<Cidr> -> seq<Cidr>, ethMap: EthMap, lanes: seq<LaneRow>,
                            claimed: set<Key>, cmds: seq<DestRule>, r: DestRule, us: LaneRow)
    requires IsListing(listing) && ClaimState(SharedAndCross(listing, ethMap, lanes), claimed, cmds)
    requires us in lanes && us.eth == r.iif && forall row | row in lanes && row.eth == r.iif :: row == us
    requires forall j | 0 <= j < |lanes| :: !Serves(ethMap, lanes[j], KeyOf(r))
    ensures r in cmds <==>
              && SendsOn(us)
              && exists i: nat :: IsBest(lanes, TakesFrom(us, KeyOf(r)), i)
                   && r == DestRule(r.family, r.dst, r.iif, us.priority, lanes[i].table)
  {
    hide SharedAndCross, FirstPerKey, FirstWith, SortDescending, FirstSuch, IsListing, IsUpstream, SendsOn;
    var k := KeyOf(r);
    KeptIsFirst(SharedAndCross(listing, ethMap, lanes), r);
    ClaimOnOwnInterface(listing, ethMap, lanes, us, k);
    var none := FirstSuchIsBest(lanes, Serving(ethMap, k));
    var w := FirstSuchIsBest(lanes, Partner(us, k));
    hide Serves, IsDownstream, Covers;
    NeedsAccess(us);
    if us.access.Some? {
      forall row
        ensures Partner(us, k)(row) <==> TakesFrom(us, k)(row)
      {
        PartnerFields(us, k, row);
      }
      PartnerFields(us, k, us);
      hide Partner, TakesFrom;
      forall i: nat
        ensures IsBest(lanes, Partner(us, k), i) <==> IsBest(lanes, TakesFrom(us, k), i)
      {
        SameBest(lanes, Partner(us, k), TakesFrom(us, k), i);
      }
      forall i: nat, j: nat | IsBest(lanes, Partner(us, k), i) && IsBest(lanes, Partner(us, k), j)
        ensures i == j
      {
      }
    }
  }

  lemma NeedsAccess(us: LaneRow)
    ensures SendsOn(us) ==> us.access.Some?
  {
  }

  // ------------------------------------------------------------ both phases together

  /**
   * Phases 3 and 4 never emit two rules for one family, destination and ingress, and
   * Phase 4 only adds to what Phase 3 emitted.
   */
  lemma ClaimsAreExclusive(listing: set<Cidr> -> seq<Cidr>, ethMap: EthMap, lanes: seq<LaneRow>,
                           claimed3: set<Key>, cmds3: seq<DestRule>, claimed: set<Key>, cmds: seq<DestRule>)
    requires ClaimState(SharedCandidates(listing, ethMap, SortDescending(lanes)), claimed3, cmds3)
    requires ClaimState(SharedAndCross(listing, ethMap, lanes), claimed, cmds)
    ensures DistinctKeys(cmds)
    ensures cmds3 <= cmds
    ensures forall i | |cmds3| <= i < |cmds| :: KeyOf(cmds[i]) !in claimed3
  {
    var rows := SortDescending(lanes);
    var accesses := SortedNames(CrossAccesses(rows));
    var shared := SharedCandidates(listing, ethMap, rows);
    FirstPerKeyExtends(shared, CrossCandidates(listing, rows, accesses, |accesses|));
    FirstPerKeyDistinct(SharedAndCross(listing, ethMap, lanes));
    forall i | |cmds3| <= i < |cmds|
      ensures KeyOf(cmds[i]) !in claimed3
    {
      SameKeys(shared, KeyOf(cmds[i]));
    }
  }
}
