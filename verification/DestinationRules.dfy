/**
 * Destination rules and the greedy claim discipline that Phases 3 and 4 of
 * `render` in clabgen/s88/CM/linux_policy_routes.py share: a rule is emitted only
 * if its (family, destination, ingress) has not been claimed before.
 */
module DestinationRules {
  import opened Common
  import opened Sorting
  import opened Addressing
  import opened NodeModel

  /** `rule add to dst iif iif priority priority table table`, with a numeric table. */
  datatype DestRule = DestRule(family: Family, dst: Cidr, iif: Name, priority: int, table: int)

  datatype Key = Key(family: Family, dst: Cidr, iif: Name)

  function KeyOf(r: DestRule): Key {
    Key(r.family, r.dst, r.iif)
  }

  predicate HasKey(rules: seq<DestRule>, k: Key) {
    exists r | r in rules :: KeyOf(r) == k
  }

  /** The first rule of every key, in order. */
  function FirstPerKey(rules: seq<DestRule>): seq<DestRule> {
    if rules == [] then []
    else
      var kept, r := FirstPerKey(rules[..|rules| - 1]), rules[|rules| - 1];
      if HasKey(kept, KeyOf(r)) then kept else kept + [r]
  }

  function FirstWith(rules: seq<DestRule>, k: Key): (r: Option<DestRule>)
    ensures r.Some? <==> HasKey(rules, k)
    ensures r.Some? ==> r.value in rules && KeyOf(r.value) == k
  {
    if rules == [] then None
    else if KeyOf(rules[0]) == k then Some(rules[0])
    else
      var r := FirstWith(rules[1..], k);
      assert rules == [rules[0]] + rules[1..];
      r
  }

  predicate DistinctKeys(rules: seq<DestRule>) {
    forall i, j | 0 <= i < j < |rules| :: KeyOf(rules[i]) != KeyOf(rules[j])
  }

  lemma FirstPerKeyStep(rules: seq<DestRule>, r: DestRule)
    ensures FirstPerKey(rules + [r])
         == if HasKey(FirstPerKey(rules), KeyOf(r)) then FirstPerKey(rules) else FirstPerKey(rules) + [r]
  {
    var all := rules + [r];
    assert all[..|all| - 1] == rules && all[|all| - 1] == r;
  }

  lemma HasKeyAppend(a: seq<DestRule>, b: seq<DestRule>, k: Key)
    ensures HasKey(a + b, k) <==> HasKey(a, k) || HasKey(b, k)
  {
  }

  lemma {:induction false} SameKeys(rules: seq<DestRule>, k: Key)
    ensures HasKey(FirstPerKey(rules), k) <==> HasKey(rules, k)
  {
    if rules != [] {
      var rest, r := rules[..|rules| - 1], rules[|rules| - 1];
      assert rules == rest + [r];
      SameKeys(rest, k);
      FirstPerKeyStep(rest, r);
      HasKeyAppend(rest, [r], k);
      HasKeyAppend(FirstPerKey(rest), [r], k);
      assert HasKey([r], k) <==> KeyOf(r) == k by { assert r in [r]; }
    }
  }

  lemma {:induction false} FirstPerKeyDistinct(rules: seq<DestRule>)
    ensures DistinctKeys(FirstPerKey(rules))
  {
    if rules != [] {
      FirstPerKeyDistinct(rules[..|rules| - 1]);
    }
  }

  lemma {:induction false} FirstWithAppend(a: seq<DestRule>, b: seq<DestRule>, k: Key)
    ensures FirstWith(a + b, k) == if HasKey(a, k) then FirstWith(a, k) else FirstWith(b, k)
  {
    if a == [] {
      assert a + b == b;
    } else {
      assert (a + b)[1..] == a[1..] + b;
      FirstWithAppend(a[1..], b, k);
      HasKeyAppend([a[0]], a[1..], k);
      assert a == [a[0]] + a[1..];
      assert HasKey([a[0]], k) <==> KeyOf(a[0]) == k by { assert a[0] in [a[0]]; }
    }
  }

  /** What survives for a key is its first rule, and nothing else. */
  lemma {:induction false} KeptIsFirst(rules: seq<DestRule>, r: DestRule)
    ensures r in FirstPerKey(rules) <==> FirstWith(rules, KeyOf(r)) == Some(r)
  {
    if rules != [] {
      var rest, last := rules[..|rules| - 1], rules[|rules| - 1];
      assert rules == rest + [last];
      KeptIsFirst(rest, r);
      FirstPerKeyStep(rest, last);
      SameKeys(rest, KeyOf(r));
      FirstWithAppend(rest, [last], KeyOf(r));
      assert FirstWith([last], KeyOf(r)) == if KeyOf(last) == KeyOf(r) then Some(last) else None by {
        assert [last][1..] == [];
      }
      if HasKey(rest, KeyOf(r)) {
        assert r == last ==> HasKey(FirstPerKey(rest), KeyOf(last));
      }
    }
  }

  /** Later candidates never touch what earlier ones put in place. */
  lemma {:induction false} FirstPerKeyExtends(a: seq<DestRule>, b: seq<DestRule>)
    ensures FirstPerKey(a) <= FirstPerKey(a + b)
    decreases |b|
  {
    if b == [] {
      assert a + b == a;
    } else {
      var rest, r := b[..|b| - 1], b[|b| - 1];
      assert a + b == (a + rest) + [r];
      FirstPerKeyExtends(a, rest);
      FirstPerKeyStep(a + rest, r);
    }
  }

  // ---------------------------------------------------------- candidates of one table

  function RulesForDst(f: Family, d: Cidr, eths: seq<Name>, priority: int, table: int, count: nat): seq<DestRule>
    requires count <= |eths|
  {
    if count == 0 then []
    else RulesForDst(f, d, eths, priority, table, count - 1) + [DestRule(f, d, eths[count - 1], priority, table)]
  }

  /** The candidates for the first `count` destinations on every ingress; the default is passed over. */
  function RulesFor(f: Family, dsts: seq<Cidr>, eths: seq<Name>, priority: int, table: int, count: nat): seq<DestRule>
    requires count <= |dsts|
  {
    if count == 0 then []
    else
      var before, d := RulesFor(f, dsts, eths, priority, table, count - 1), dsts[count - 1];
      if d == DefaultOf(f) then before else before + RulesForDst(f, d, eths, priority, table, |eths|)
  }

  lemma {:induction false} RulesForDstMembers(
      f: Family, d: Cidr, eths: seq<Name>, priority: int, table: int, count: nat, r: DestRule)
    requires count <= |eths|
    ensures r in RulesForDst(f, d, eths, priority, table, count)
       <==> r.iif in eths[..count] && r == DestRule(f, d, r.iif, priority, table)
    decreases count
  {
    if count > 0 {
      RulesForDstMembers(f, d, eths, priority, table, count - 1, r);
      assert eths[..count] == eths[..count - 1] + [eths[count - 1]];
    }
  }

  lemma {:induction false} RulesForMembers(
      f: Family, dsts: seq<Cidr>, eths: seq<Name>, priority: int, table: int, count: nat, r: DestRule)
    requires count <= |dsts|
    ensures r in RulesFor(f, dsts, eths, priority, table, count)
       <==> && r.dst in dsts[..count] && r.dst != DefaultOf(f) && r.iif in eths
            && r == DestRule(f, r.dst, r.iif, priority, table)
    decreases count
  {
    if count > 0 {
      RulesForMembers(f, dsts, eths, priority, table, count - 1, r);
      RulesForDstMembers(f, dsts[count - 1], eths, priority, table, |eths|, r);
      assert dsts[..count] == dsts[..count - 1] + [dsts[count - 1]];
      assert eths[..|eths|] == eths;
    }
  }

  ghost predicate ClaimState(done: seq<DestRule>, claimed: set<Key>, cmds: seq<DestRule>) {
    cmds == FirstPerKey(done) && forall k :: k in claimed <==> HasKey(done, k)
  }

  lemma ClaimOne(done: seq<DestRule>, claimed: set<Key>, cmds: seq<DestRule>, r: DestRule)
    requires ClaimState(done, claimed, cmds)
    ensures ClaimState(done + [r], claimed + {KeyOf(r)}, if KeyOf(r) in claimed then cmds else cmds + [r])
  {
    FirstPerKeyStep(done, r);
    SameKeys(done, KeyOf(r));
    forall k
      ensures k in claimed + {KeyOf(r)} <==> HasKey(done + [r], k)
    {
      HasKeyAppend(done, [r], k);
      assert HasKey([r], k) <==> KeyOf(r) == k by { assert r in [r]; }
    }
  }

  /** The inner loop of both phases: one destination on every ingress. */
  method ClaimIngresses(f: Family, d: Cidr, eths: seq<Name>, priority: int, table: int,
                        claimed0: set<Key>, cmds0: seq<DestRule>, ghost done: seq<DestRule>)
      returns (claimed: set<Key>, cmds: seq<DestRule>)
    requires ClaimState(done, claimed0, cmds0)
    ensures ClaimState(done + RulesForDst(f, d, eths, priority, table, |eths|), claimed, cmds)
  {
    hide ClaimState;
    claimed, cmds := claimed0, cmds0;
    assert done + RulesForDst(f, d, eths, priority, table, 0) == done;
    for j := 0 to |eths|
      invariant ClaimState(done + RulesForDst(f, d, eths, priority, table, j), claimed, cmds)
    {
      var r := DestRule(f, d, eths[j], priority, table);
      ghost var soFar := done + RulesForDst(f, d, eths, priority, table, j);
      ClaimOne(soFar, claimed, cmds, r);
      assert soFar + [r] == done + RulesForDst(f, d, eths, priority, table, j + 1);
      if KeyOf(r) !in claimed {
        claimed := claimed + {KeyOf(r)};
        cmds := cmds + [r];
      } else {
        assert claimed + {KeyOf(r)} == claimed;
      }
    }
  }

  /** The two inner loops that both phases run for the routes of one table. */
  method ClaimDestinations(f: Family, dsts: seq<Cidr>, eths: seq<Name>, priority: int, table: int,
                           claimed0: set<Key>, cmds0: seq<DestRule>, ghost done: seq<DestRule>)
      returns (claimed: set<Key>, cmds: seq<DestRule>)
    requires ClaimState(done, claimed0, cmds0)
    ensures ClaimState(done + RulesFor(f, dsts, eths, priority, table, |dsts|), claimed, cmds)
  {
    hide ClaimState, RulesForDst;
    claimed, cmds := claimed0, cmds0;
    assert done + RulesFor(f, dsts, eths, priority, table, 0) == done;
    for i := 0 to |dsts|
      invariant ClaimState(done + RulesFor(f, dsts, eths, priority, table, i), claimed, cmds)
    {
      var d := dsts[i];
      if d == DefaultOf(f) {
        continue;
      }
      ghost var before := done + RulesFor(f, dsts, eths, priority, table, i);
      claimed, cmds := ClaimIngresses(f, d, eths, priority, table, claimed, cmds, before);
      assert before + RulesForDst(f, d, eths, priority, table, |eths|)
          == done + RulesFor(f, dsts, eths, priority, table, i + 1);
    }
  }
}
