/**
 * The protocol parts of firewall rules told in the fields of a match
 * (clabgen/s88/CM/cpm_firewall_rules.py and policy_firewall.py).
 */
module FirewallFields {
  import opened Common
  import opened Text
  import opened Addressing
  import opened PolicyFirewall

  /** The match names no protocol. */
  predicate AnyProtocol(m: Match) {
    m.proto == None || m.proto == Some("any")
  }

  /** The match names the protocol, in any letter case. */
  predicate Names(m: Match, text: string) {
    m.proto.Some? && m.proto.value != "any" && Lower(m.proto.value) == text
  }

  /** A match for control messages of the other family. */
  predicate IsForeignIcmp(m: Match, f: Family) {
    (f == V6 && Names(m, "icmpv4")) || (f == V4 && (Names(m, "icmpv6") || Names(m, "ipv6-icmp")))
  }

  /** A match for control messages of the family. */
  predicate IsIcmp(m: Match, f: Family) {
    Names(m, "icmp") || (f == V4 && Names(m, "icmpv4")) || (f == V6 && (Names(m, "icmpv6") || Names(m, "ipv6-icmp")))
  }

  /** The numbers among the declared ports, in order; what is no number is passed over. */
  ghost predicate KeepsNumbers(ports: Ports, numbers: seq<int>) {
    match ports
    case OnePort(n) => numbers == [n]
    case PortList(list) =>
      && (forall n :: n in numbers <==> Number(n) in list)
      && |numbers| <= |list|
    case _ => numbers == []
  }

  lemma {:induction false} NumbersMembers(ports: seq<Port>, n: int)
    ensures n in NumbersOf(ports) <==> Number(n) in ports
    ensures |NumbersOf(ports)| <= |ports|
  {
    if ports != [] {
      NumbersMembers(ports[1..], n);
      assert ports == [ports[0]] + ports[1..];
    }
  }

  lemma PortsKeepNumbers(ports: Ports)
    ensures KeepsNumbers(ports, PortsOf(ports))
  {
    match ports
    case PortList(list) =>
      forall n
        ensures n in NumbersOf(list) <==> Number(n) in list
      {
        NumbersMembers(list, n);
      }
      NumbersMembers(list, 0);
    case _ =>
  }

  /**
   * Between interfaces: control messages become the family's own protocol without ports and
   * those of the other family are an error; any other protocol keeps its name in lower case
   * and its ports, and none stays none.
   */
  lemma SuffixOfIff(m: Match, f: Family)
    ensures SuffixOf(m, f).Err? <==> IsForeignIcmp(m, f)
    ensures IsIcmp(m, f) <==> SuffixOf(m, f) == Ok(Suffix(if f == V4 then "icmp" else "icmpv6", true, []))
    ensures AnyProtocol(m) ==> SuffixOf(m, f) == Ok(Suffix("", false, PortsOf(m.dports)))
    ensures forall x: Suffix :: SuffixOf(m, f) == Ok(x) && !x.meta ==>
              x.dports == PortsOf(m.dports) && (if AnyProtocol(m) then x.proto == "" else Names(m, x.proto))
  {
  }

  /** The port as a number, if it is one or converts to one. */
  function AsNumber(p: Port): Option<int> {
    match p
    case Number(n) => Some(n)
    case Other(converted) => converted
  }

  lemma {:induction false} ConvertedPortsIff(ports: seq<Port>)
    ensures ConvertedPorts(ports).Err? <==> exists i :: 0 <= i < |ports| && AsNumber(ports[i]).None?
    ensures ConvertedPorts(ports).Ok? ==>
              && |ConvertedPorts(ports).value| == |ports|
              && forall i | 0 <= i < |ports| :: AsNumber(ports[i]) == Some(ConvertedPorts(ports).value[i])
  {
    if ports != [] {
      ConvertedPortsIff(ports[1..]);
      assert forall i | 1 <= i < |ports| :: ports[i] == ports[1..][i - 1];
      if i :| 0 <= i < |ports[1..]| && AsNumber(ports[1..][i]).None? {
        assert AsNumber(ports[i + 1]).None?;
      }
    }
  }

  /** The text "any" in any letter case, or nothing. */
  predicate AnyTenantProtocol(m: Match) {
    m.proto.Some? ==> Lower(m.proto.value) == "any"
  }

  /**
   * Between tenants: every port must convert; the protocol keeps its name in lower case, and
   * only the name "icmp" makes it one of control messages.
   */
  lemma TenantSuffixIff(m: Match)
    ensures TenantSuffix(m).Err? <==>
              || m.dports.Malformed?
              || (m.dports.PortList? && exists i :: 0 <= i < |m.dports.ports| && AsNumber(m.dports.ports[i]).None?)
    ensures TenantSuffix(m).Ok? ==>
              (var x := TenantSuffix(m).value;
               && (if AnyTenantProtocol(m) then x.proto == "" else x.proto == Lower(m.proto.value))
               && (x.meta <==> m.proto.Some? && Lower(m.proto.value) == "icmp")
               && (m.dports.NoPorts? ==> x.dports == [])
               && (m.dports.OnePort? ==> x.dports == [m.dports.n])
               && (m.dports.PortList? ==>
                     && |x.dports| == |m.dports.ports|
                     && forall i | 0 <= i < |x.dports| :: AsNumber(m.dports.ports[i]) == Some(x.dports[i])))
  {
    if m.dports.PortList? {
      ConvertedPortsIff(m.dports.ports);
    }
  }

  // ------------------------------------------------------------- the rest of an entry

  /** A match without a family tag applies to both; one with a tag to its own. */
  lemma AppliesIff(m: Option<Match>, f: Family)
    ensures MatchApplies(m, f) <==>
              exists x: Match :: m == Some(x) && (x.family.AnyFamily? || (x.family.Only? && x.family.family == f))
  {
    if m.Some? && MatchApplies(m, f) {
      assert m == Some(m.value);
    }
  }

  /** A prefix of an entry counts for the family it declares, or for both. */
  lemma EntryAppliesIff(e: PrefixEntry, f: Family)
    ensures EntryApplies(e, f) <==> e.prefix.Some? && (e.family.None? || e.family == Some(f))
  {
  }

  /**
   * The rules between interfaces: an entry that names both is an error if its state is other
   * than "established,related", or it is a return entry without one; every rule keeps its
   * interfaces, action and comment, and restricts the state exactly if the entry does.
   */
  lemma EntryIff(rule: Rule)
    ensures rule.source.text == "" || rule.target.text == "" ==> CpmRules(rule) == Ok([])
    ensures CpmRules(rule) == Err(UnrestrictedReturn) <==>
              && rule.source.text != "" && rule.target.text != ""
              && (rule.state == None || rule.state == Some("")) && rule.isReturn
    ensures (exists s :: CpmRules(rule) == Err(UnsupportedState(s))) <==>
              && rule.source.text != "" && rule.target.text != ""
              && rule.state.Some? && rule.state.value != "" && rule.state.value != "established,related"
    ensures CpmRules(rule).Ok? ==> forall r | r in CpmRules(rule).value ::
              && r.iifs == Some([rule.source]) && r.oifs == Some([rule.target])
              && r.accept == rule.accept && r.comment == rule.comment
              && r.states == (if rule.state == Some("established,related") then Some({Established, Related}) else None)
  {
    hide FamiliesRules;
    FamiliesKeepEntry(rule, |Families(rule)|);
  }

  lemma {:induction false} FamiliesKeepEntry(rule: Rule, count: nat)
    requires count <= |Families(rule)|
    ensures FamiliesRules(rule, count).Ok? ==> forall r | r in FamiliesRules(rule, count).value :: KeepsEntry(rule, r)
    ensures FamiliesRules(rule, count).Err? ==> FamiliesRules(rule, count).error.IcmpFamily?
    decreases count
  {
    hide FamilyRules, KeepsEntry;
    if count > 0 {
      FamiliesKeepEntry(rule, count - 1);
      RulesKeepEntry(rule, Families(rule)[count - 1]);
    }
  }

  ghost predicate KeepsEntry(rule: Rule, r: NftRule) {
    && r.iifs == Some([rule.source]) && r.oifs == Some([rule.target])
    && r.accept == rule.accept && r.comment == rule.comment
    && (if rule.state == None || rule.state == Some("") then r.states == None
        else r.states == Some({Established, Related}))
  }

  lemma RulesKeepEntry(rule: Rule, f: Family)
    ensures FamilyRules(rule, f).Ok? ==> forall r | r in FamilyRules(rule, f).value :: KeepsEntry(rule, r)
    ensures FamilyRules(rule, f).Err? ==> FamilyRules(rule, f).error.IcmpFamily?
  {
    hide DeclaredPrefixes;
    SuffixErrors(rule.matches, f, |rule.matches|);
  }

  lemma {:induction false} SuffixErrors(matches: seq<Option<Match>>, f: Family, count: nat)
    requires count <= |matches|
    ensures Suffixes(matches, f, count).Err? ==> Suffixes(matches, f, count).error.IcmpFamily?
    decreases count
  {
    if count > 0 {
      SuffixErrors(matches, f, count - 1);
    }
  }
}
