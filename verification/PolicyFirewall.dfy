/**
 * The policy firewall: nft rules expanded from forwarding rules
 * (clabgen/s88/CM/cpm_firewall_rules.py) and appended, without repetitions, to a
 * chain whose policy is drop (clabgen/s88/CM/policy_firewall.py).
 */
module PolicyFirewall {
  import opened Arithmetic
  import opened Common
  import opened Sorting
  import opened Text
  import opened Addressing

  // -------------------------------------------------------------- the chain and its meaning

  datatype ConnState = New | Established | Related | Invalid | Untracked

  datatype Packet = Packet(iif: Name, oif: Name, state: ConnState, src: Ip, dst: Ip, proto: string, dport: nat)

  /** The protocol part of a rule: `meta l4proto proto`, or `proto`, then the ports. */
  datatype Suffix = Suffix(proto: string, meta: bool, dports: seq<int>)

  const ANY_TRAFFIC := Suffix("", false, [])

  /** A family's prefixes, as in `ip saddr { ... }`. */
  datatype Prefixes = Prefixes(family: Family, cidrs: seq<Cidr>)

  datatype NftRule = NftRule(
    iifs: Option<seq<Name>>, oifs: Option<seq<Name>>, states: Option<set<ConnState>>,
    src: Option<Prefixes>, dst: Option<Prefixes>, suffix: Suffix, accept: bool, comment: Option<string>,
    tolerant: bool)

  const TRACKED := {Established, Related}

  const ETH0 := Name("eth0")

  const BASE: seq<NftRule> := [
    NftRule(None, None, Some(TRACKED), None, None, ANY_TRAFFIC, true, None, true),
    NftRule(None, None, Some({Invalid}), None, None, ANY_TRAFFIC, false, None, true),
    NftRule(Some([ETH0]), None, None, None, None, ANY_TRAFFIC, false, None, true),
    NftRule(None, Some([ETH0]), None, None, None, ANY_TRAFFIC, false, None, true)]

  predicate Covers(c: Cidr, a: Ip) {
    Valid(c) && InNetwork(a, c)
  }

  predicate InPrefixes(prefixes: Prefixes, a: Ip) {
    a.family == prefixes.family && exists c | c in prefixes.cidrs :: Covers(c, a)
  }

  /** How nft reads a protocol part is left open; without one every packet fits. */
  type Reading = (Suffix, Packet) -> bool

  predicate Fits(meets: Reading, suffix: Suffix, p: Packet) {
    suffix == ANY_TRAFFIC || meets(suffix, p)
  }

  predicate Hits(meets: Reading, r: NftRule, p: Packet) {
    && (r.iifs.Some? ==> p.iif in r.iifs.value)
    && (r.oifs.Some? ==> p.oif in r.oifs.value)
    && (r.states.Some? ==> p.state in r.states.value)
    && (r.src.Some? ==> InPrefixes(r.src.value, p.src))
    && (r.dst.Some? ==> InPrefixes(r.dst.value, p.dst))
    && Fits(meets, r.suffix, p)
  }

  /** The verdict of the first rule that a packet hits. */
  function FirstHit(meets: Reading, rules: seq<NftRule>, p: Packet): Option<bool> {
    if rules == [] then None
    else if Hits(meets, rules[0], p) then Some(rules[0].accept)
    else FirstHit(meets, rules[1..], p)
  }

  /** A chain under policy drop accepts a packet whose first hit accepts it. */
  predicate Accepts(meets: Reading, chain: seq<NftRule>, p: Packet) {
    FirstHit(meets, chain, p) == Some(true)
  }

  lemma {:induction false} FirstHitAppend(meets: Reading, a: seq<NftRule>, b: seq<NftRule>, p: Packet)
    ensures FirstHit(meets, a + b, p)
         == if FirstHit(meets, a, p).Some? then FirstHit(meets, a, p) else FirstHit(meets, b, p)
  {
    if a == [] {
      assert a + b == b;
    } else {
      assert (a + b)[1..] == a[1..] + b;
      FirstHitAppend(meets, a[1..], b, p);
    }
  }

  lemma {:induction false} NoHit(meets: Reading, rules: seq<NftRule>, p: Packet)
    ensures FirstHit(meets, rules, p).None? <==> forall r | r in rules :: !Hits(meets, r, p)
  {
    if rules != [] {
      NoHit(meets, rules[1..], p);
      assert rules == [rules[0]] + rules[1..];
    }
  }

  /** Dropping rules already emitted leaves every packet its first hit. */
  lemma {:induction false} DedupKeepsVerdict(meets: Reading, rules: seq<NftRule>, p: Packet)
    ensures FirstHit(meets, Deduped(rules), p) == FirstHit(meets, rules, p)
    decreases |rules|
  {
    if rules != [] {
      hide Hits;
      var (init, r) := (rules[..|rules| - 1], rules[|rules| - 1]);
      assert rules == init + [r];
      DedupKeepsVerdict(meets, init, p);
      FirstHitAppend(meets, init, [r], p);
      FirstHitAppend(meets, Deduped(init), [r], p);
      if r in init {
        NoHit(meets, init, p);
      }
    }
  }

  // ------------------------------------------------------------------- forwarding rules

  datatype FamilyTag = AnyFamily | Only(family: Family) | UnknownFamily

  /** An entry of a port list; what is not a number may convert to one. */
  datatype Port = Number(n: int) | Other(converted: Option<int>)

  datatype Ports = NoPorts | OnePort(n: int) | PortList(ports: seq<Port>) | Malformed

  datatype Match = Match(family: FamilyTag, proto: Option<string>, dports: Ports)

  /** A prefix and the family it declares; None when the entry has none. */
  datatype PrefixEntry = PrefixEntry(family: Option<Family>, prefix: Option<Cidr>)

  /** A missing interface or tenant is the empty text; a match that is no object is None. */
  datatype Rule = Rule(
    source: Name, target: Name, accept: bool, dns: bool, family: Option<Family>, comment: Option<string>,
    state: Option<string>, isReturn: bool, sources: seq<PrefixEntry>, destinations: seq<PrefixEntry>,
    matches: seq<Option<Match>>, srcTenant: string, dstTenant: string)

  datatype FirewallError =
    | UnrestrictedReturn | UnsupportedState(state: string) | IcmpFamily(proto: string, family: Family)
    | InvalidPorts

  predicate Applies(tag: FamilyTag, f: Family) {
    tag == AnyFamily || tag == Only(f)
  }

  function NumbersOf(ports: seq<Port>): seq<int> {
    if ports == [] then []
    else (if ports[0].Number? then [ports[0].n] else []) + NumbersOf(ports[1..])
  }

  function PortsOf(ports: Ports): seq<int> {
    match ports
    case OnePort(n) => [n]
    case PortList(list) => NumbersOf(list)
    case _ => []
  }

  /** The protocol part of a match that applies to the family. */
  function SuffixOf(m: Match, f: Family): Result<Suffix, FirewallError> {
    var proto := if m.proto in {None, Some("any")} then "" else Lower(m.proto.value);
    if proto == "icmpv4" && f == V6 then Err(IcmpFamily(proto, f))
    else if proto in {"icmp", "icmpv4"} then Ok(Suffix(if f == V6 then "icmpv6" else "icmp", true, []))
    else if proto in {"icmpv6", "ipv6-icmp"} then
      if f == V6 then Ok(Suffix("icmpv6", true, [])) else Err(IcmpFamily(proto, f))
    else Ok(Suffix(proto, false, PortsOf(m.dports)))
  }

  predicate MatchApplies(m: Option<Match>, f: Family) {
    m.Some? && Applies(m.value.family, f)
  }

  /** The protocol parts of the first `count` matches, or the first error. */
  function Suffixes(matches: seq<Option<Match>>, f: Family, count: nat): Result<seq<Suffix>, FirewallError>
    requires count <= |matches|
  {
    if count == 0 then Ok([])
    else
      match Suffixes(matches, f, count - 1)
      case Err(e) => Err(e)
      case Ok(before) =>
        var m := matches[count - 1];
        if !MatchApplies(m, f) then Ok(before)
        else
          match SuffixOf(m.value, f)
          case Err(e) => Err(e)
          case Ok(suffix) => Ok(before + [suffix])
  }

  predicate EntryApplies(e: PrefixEntry, f: Family) {
    e.prefix.Some? && (e.family.Some? ==> e.family.value == f)
  }

  function Declared(entries: seq<PrefixEntry>, f: Family, count: nat): seq<Cidr>
    requires count <= |entries|
  {
    if count == 0 then []
    else
      var e := entries[count - 1];
      Declared(entries, f, count - 1) + (if EntryApplies(e, f) then [e.prefix.value] else [])
  }

  function DeclaredPrefixes(entries: seq<PrefixEntry>, f: Family): Option<Prefixes> {
    var cidrs := Declared(entries, f, |entries|);
    if cidrs == [] then None else Some(Prefixes(f, cidrs))
  }

  const DNS_PORT := 53

  function RuleWith(rule: Rule, f: Family, suffix: Suffix): NftRule {
    NftRule(Some([rule.source]), Some([rule.target]),
            if rule.state in {None, Some("")} then None else Some(TRACKED),
            DeclaredPrefixes(rule.sources, f), DeclaredPrefixes(rule.destinations, f), suffix,
            rule.accept, rule.comment, false)
  }

  function RulesWith(rule: Rule, f: Family, suffixes: seq<Suffix>): seq<NftRule> {
    seq(|suffixes|, i requires 0 <= i < |suffixes| => RuleWith(rule, f, suffixes[i]))
  }

  /** One family's rules. */
  function FamilyRules(rule: Rule, f: Family): Result<seq<NftRule>, FirewallError> {
    if rule.destinations != [] && DeclaredPrefixes(rule.destinations, f).None? then Ok([])
    else
      match Suffixes(rule.matches, f, |rule.matches|)
      case Err(e) => Err(e)
      case Ok(suffixes) =>
        if rule.matches != [] then Ok(RulesWith(rule, f, suffixes))
        else if rule.dns then
          Ok(RulesWith(rule, f, [Suffix("udp", false, [DNS_PORT]), Suffix("tcp", false, [DNS_PORT])]))
        else Ok(RulesWith(rule, f, [ANY_TRAFFIC]))
  }

  function Families(rule: Rule): seq<Family> {
    if rule.family.Some? then [rule.family.value] else [V4, V6]
  }

  function FamiliesRules(rule: Rule, count: nat): Result<seq<NftRule>, FirewallError>
    requires count <= |Families(rule)|
  {
    if count == 0 then Ok([])
    else
      match FamiliesRules(rule, count - 1)
      case Err(e) => Err(e)
      case Ok(before) =>
        match FamilyRules(rule, Families(rule)[count - 1])
        case Err(e) => Err(e)
        case Ok(rules) => Ok(before + rules)
  }

  predicate NamesInterfaces(rule: Rule) {
    rule.source.text != "" && rule.target.text != ""
  }

  function StateError(rule: Rule): Option<FirewallError> {
    if rule.state in {None, Some("")} then if rule.isReturn then Some(UnrestrictedReturn) else None
    else if rule.state != Some("established,related") then Some(UnsupportedState(rule.state.value))
    else None
  }

  /** The rules between two named interfaces. */
  function CpmRules(rule: Rule): Result<seq<NftRule>, FirewallError> {
    if !NamesInterfaces(rule) then Ok([])
    else if StateError(rule).Some? then Err(StateError(rule).value)
    else FamiliesRules(rule, |Families(rule)|)
  }

  method FamilyPrefixes(entries: seq<PrefixEntry>, f: Family) returns (prefixes: seq<Cidr>)
    ensures prefixes == Declared(entries, f, |entries|)
  {
    prefixes := [];
    for i := 0 to |entries|
      invariant prefixes == Declared(entries, f, i)
    {
      if EntryApplies(entries[i], f) {
        prefixes := prefixes + [entries[i].prefix.value];
      }
    }
  }

  method ExplicitMatchSuffixes(matches: seq<Option<Match>>, f: Family) returns (r: Result<seq<Suffix>, FirewallError>)
    ensures r == Suffixes(matches, f, |matches|)
  {
    var suffixes: seq<Suffix> := [];
    for i := 0 to |matches|
      invariant Suffixes(matches, f, i) == Ok(suffixes)
    {
      if MatchApplies(matches[i], f) {
        var suffix := SuffixOf(matches[i].value, f);
        if suffix.Err? {
          SuffixErrorStays(matches, f, i + 1, |matches|);
          return Err(suffix.error);
        }
        suffixes := suffixes + [suffix.value];
      }
    }
    return Ok(suffixes);
  }

  lemma {:induction false} SuffixErrorStays(matches: seq<Option<Match>>, f: Family, i: nat, j: nat)
    requires i <= j <= |matches| && Suffixes(matches, f, i).Err?
    ensures Suffixes(matches, f, j) == Suffixes(matches, f, i)
    decreases j
  {
    if i < j {
      SuffixErrorStays(matches, f, i, j - 1);
    }
  }

  method RulesForCpmRule(rule: Rule) returns (r: Result<seq<NftRule>, FirewallError>)
    ensures r == CpmRules(rule)
  {
    if !NamesInterfaces(rule) {
      return Ok([]);
    }
    if StateError(rule).Some? {
      return Err(StateError(rule).value);
    }
    hide FamilyRules, StateError, NamesInterfaces;
    var rules: seq<NftRule> := [];
    var families := Families(rule);
    for i := 0 to |families|
      invariant FamiliesRules(rule, i) == Ok(rules)
    {
      var added := RulesForFamily(rule, families[i]);
      if added.Err? {
        assert |families| == 2 && i == 0 ==> FamiliesRules(rule, 2) == FamiliesRules(rule, 1);
        return added;
      }
      rules := rules + added.value;
    }
    return Ok(rules);
  }

  /** The loop body: the rules of one family. */
  method RulesForFamily(rule: Rule, f: Family) returns (r: Result<seq<NftRule>, FirewallError>)
    ensures r == FamilyRules(rule, f)
  {
    hide Declared, SuffixOf, RuleWith;
    var destinations := FamilyPrefixes(rule.destinations, f);
    if rule.destinations != [] && destinations == [] {
      return Ok([]);
    }
    var suffixes := ExplicitMatchSuffixes(rule.matches, f);
    if suffixes.Err? {
      return Err(suffixes.error);
    }
    if suffixes.value != [] {
      return Ok(RulesWith(rule, f, suffixes.value));
    } else if rule.matches != [] {
      assert RulesWith(rule, f, []) == [];
      return Ok([]);
    } else if rule.dns {
      return Ok(RulesWith(rule, f, [Suffix("udp", false, [DNS_PORT]), Suffix("tcp", false, [DNS_PORT])]));
    }
    return Ok(RulesWith(rule, f, [ANY_TRAFFIC]));
  }

  // ------------------------------------------------------------ rules between tenants

  /** The tenants of every interface. */
  type Tags = map<Name, seq<string>>

  function Tagged(tags: Tags, tenant: string): seq<Name> {
    SortedNames(set n | n in tags && tenant in tags[n])
  }

  function ConvertedPorts(ports: seq<Port>): Result<seq<int>, FirewallError> {
    if ports == [] then Ok([])
    else
      var n := match ports[0] case Number(n) => Some(n) case Other(converted) => converted;
      match ConvertedPorts(ports[1..])
      case Err(e) => Err(e)
      case Ok(rest) => if n.None? then Err(InvalidPorts) else Ok([n.value] + rest)
  }

  function TenantPorts(ports: Ports): Result<seq<int>, FirewallError> {
    match ports
    case NoPorts => Ok([])
    case OnePort(n) => Ok([n])
    case PortList(list) => ConvertedPorts(list)
    case Malformed => Err(InvalidPorts)
  }

  function TenantSuffix(m: Match): Result<Suffix, FirewallError> {
    var proto := if m.proto.None? || Lower(m.proto.value) == "any" then "" else Lower(m.proto.value);
    match TenantPorts(m.dports)
    case Err(e) => Err(e)
    case Ok(ports) => Ok(Suffix(proto, proto == "icmp", ports))
  }

  predicate NamesTenants(tags: Tags, rule: Rule) {
    rule.srcTenant != "" && rule.dstTenant != "" && Tagged(tags, rule.srcTenant) != []
        && Tagged(tags, rule.dstTenant) != []
  }

  function TenantRule(tags: Tags, rule: Rule, suffix: Suffix): NftRule {
    NftRule(Some(Tagged(tags, rule.srcTenant)), Some(Tagged(tags, rule.dstTenant)), None, None, None, suffix,
            rule.accept, None, true)
  }

  function TenantRules(tags: Tags, rule: Rule, count: nat): Result<seq<NftRule>, FirewallError>
    requires count <= |rule.matches|
  {
    if count == 0 then Ok([])
    else
      match TenantRules(tags, rule, count - 1)
      case Err(e) => Err(e)
      case Ok(before) =>
        var m := rule.matches[count - 1];
        if m.None? then Ok(before)
        else
          match TenantSuffix(m.value)
          case Err(e) => Err(e)
          case Ok(suffix) => Ok(before + [TenantRule(tags, rule, suffix)])
  }

  // ------------------------------------------------------------------- the whole chain

  function RuleRules(tags: Tags, rule: Rule): Result<seq<NftRule>, FirewallError> {
    match CpmRules(rule)
    case Err(e) => Err(e)
    case Ok(rules) =>
      if rules != [] then Ok(rules)
      else if !NamesTenants(tags, rule) then Ok([])
      else TenantRules(tags, rule, |rule.matches|)
  }

  function AllRules(tags: Tags, rules: seq<Rule>, count: nat): Result<seq<NftRule>, FirewallError>
    requires count <= |rules|
  {
    if count == 0 then Ok([])
    else
      match AllRules(tags, rules, count - 1)
      case Err(e) => Err(e)
      case Ok(before) =>
        match RuleRules(tags, rules[count - 1])
        case Err(e) => Err(e)
        case Ok(added) => Ok(before + added)
  }

  /** The chain after rendering: the fixed rules, then every rule once. */
  function Chain(tags: Tags, rules: seq<Rule>): Result<seq<NftRule>, FirewallError> {
    match AllRules(tags, rules, |rules|)
    case Err(e) => Err(e)
    case Ok(all) => Ok(BASE + Deduped(all))
  }

  lemma {:induction false} AllRulesErrorStays(tags: Tags, rules: seq<Rule>, i: nat, j: nat)
    requires i <= j <= |rules| && AllRules(tags, rules, i).Err?
    ensures AllRules(tags, rules, j) == AllRules(tags, rules, i)
    decreases j
  {
    if i < j {
      AllRulesErrorStays(tags, rules, i, j - 1);
    }
  }

  lemma {:induction false} TenantErrorStays(tags: Tags, rule: Rule, i: nat, j: nat)
    requires i <= j <= |rule.matches| && TenantRules(tags, rule, i).Err?
    ensures TenantRules(tags, rule, j) == TenantRules(tags, rule, i)
    decreases j
  {
    if i < j {
      TenantErrorStays(tags, rule, i, j - 1);
    }
  }

  /** Append the rules that are not in the chain yet; `all` is what was met before. */
  method AppendNew(emitted: set<NftRule>, cmds: seq<NftRule>, rules: seq<NftRule>, ghost all: seq<NftRule>)
      returns (emitted': set<NftRule>, cmds': seq<NftRule>)
    requires cmds == BASE + Deduped(all) && (forall r :: r in emitted <==> r in all)
    ensures cmds' == BASE + Deduped(all + rules) && (forall r :: r in emitted' <==> r in all + rules)
  {
    hide Deduped;
    emitted', cmds' := emitted, cmds;
    assert all + rules[..0] == all;
    for i := 0 to |rules|
      invariant cmds' == BASE + Deduped(all + rules[..i])
      invariant forall r :: r in emitted' <==> r in all + rules[..i]
    {
      assert all + rules[..i + 1] == (all + rules[..i]) + [rules[i]];
      DedupedMore(all + rules[..i], rules[i]);
      if rules[i] !in emitted' {
        emitted' := emitted' + {rules[i]};
        cmds' := cmds' + [rules[i]];
      }
    }
    assert rules[..|rules|] == rules;
  }

  /** The rules of the matches of one rule between tenants. */
  method RulesForMatches(tags: Tags, rule: Rule) returns (r: Result<seq<NftRule>, FirewallError>)
    ensures r == TenantRules(tags, rule, |rule.matches|)
  {
    hide TenantSuffix;
    var rules: seq<NftRule> := [];
    for i := 0 to |rule.matches|
      invariant TenantRules(tags, rule, i) == Ok(rules)
    {
      if rule.matches[i].Some? {
        var suffix := TenantSuffix(rule.matches[i].value);
        if suffix.Err? {
          TenantErrorStays(tags, rule, i + 1, |rule.matches|);
          return Err(suffix.error);
        }
        rules := rules + [TenantRule(tags, rule, suffix.value)];
      }
    }
    return Ok(rules);
  }

  lemma NothingEmitted()
    ensures BASE + Deduped<NftRule>([]) == BASE
  {
    hide BASE;
  }

  method Render(tags: Tags, rules: seq<Rule>) returns (r: Result<seq<NftRule>, FirewallError>)
    ensures r == Chain(tags, rules)
  {
    hide CpmRules, NamesTenants, TenantRules, Deduped, BASE;
    var cmds, emitted: set<NftRule> := BASE, {};
    ghost var all: seq<NftRule> := [];
    NothingEmitted();
    for i := 0 to |rules|
      invariant AllRules(tags, rules, i) == Ok(all)
      invariant cmds == BASE + Deduped(all) && (forall r :: r in emitted <==> r in all)
    {
      var added := RulesForCpmRule(rules[i]);
      if added == Ok([]) && NamesTenants(tags, rules[i]) {
        added := RulesForMatches(tags, rules[i]);
      }
      assert added == RuleRules(tags, rules[i]);
      if added.Err? {
        AllRulesErrorStays(tags, rules, i + 1, |rules|);
        return Err(added.error);
      }
      emitted, cmds := AppendNew(emitted, cmds, added.value, all);
      all := all + added.value;
    }
    return Ok(cmds);
  }

  // --------------------------------------------------- what the rules mean for a packet

  ghost predicate HasPrefix(entries: seq<PrefixEntry>, f: Family) {
    exists e :: e in entries && EntryApplies(e, f)
  }

  ghost predicate InDeclared(entries: seq<PrefixEntry>, f: Family, a: Ip) {
    a.family == f && exists e :: e in entries && EntryApplies(e, f) && Covers(e.prefix.value, a)
  }

  ghost predicate InTraffic(meets: Reading, rule: Rule, f: Family, p: Packet) {
    if rule.matches != [] then
      exists m :: m in rule.matches && MatchApplies(m, f) && SuffixOf(m.value, f).Ok?
                  && Fits(meets, SuffixOf(m.value, f).value, p)
    else
      rule.dns ==> meets(Suffix("udp", false, [DNS_PORT]), p) || meets(Suffix("tcp", false, [DNS_PORT]), p)
  }

  /** The rule concerns the packet as one of family `f`. */
  ghost predicate Concerns(meets: Reading, rule: Rule, f: Family, p: Packet) {
    && p.iif == rule.source && p.oif == rule.target
    && (rule.state == Some("established,related") ==> p.state in TRACKED)
    && (HasPrefix(rule.sources, f) ==> InDeclared(rule.sources, f, p.src))
    && (rule.destinations != [] ==> InDeclared(rule.destinations, f, p.dst))
    && InTraffic(meets, rule, f, p)
  }

  ghost predicate TenantConcerns(meets: Reading, tags: Tags, rule: Rule, p: Packet) {
    && rule.srcTenant != "" && rule.dstTenant != ""
    && p.iif in tags && rule.srcTenant in tags[p.iif]
    && p.oif in tags && rule.dstTenant in tags[p.oif]
    && exists m :: m in rule.matches && m.Some? && TenantSuffix(m.value).Ok?
        && Fits(meets, TenantSuffix(m.value).value, p)
  }

  /** The rule is one between interfaces that some family can express. */
  ghost predicate RendersIn(rule: Rule, f: Family) {
    && (rule.destinations != [] ==> HasPrefix(rule.destinations, f))
    && (rule.matches != [] ==> exists m :: m in rule.matches && MatchApplies(m, f))
  }

  ghost predicate Renders(rule: Rule) {
    NamesInterfaces(rule) && exists f :: f in Families(rule) && RendersIn(rule, f)
  }

  ghost predicate Decides(meets: Reading, tags: Tags, rule: Rule, p: Packet) {
    if Renders(rule) then exists f :: f in Families(rule) && Concerns(meets, rule, f, p)
    else TenantConcerns(meets, tags, rule, p)
  }

  /** The verdict of the first of the `count` rules that concerns the packet. */
  ghost function FirstDeciding(meets: Reading, tags: Tags, rules: seq<Rule>, count: nat, p: Packet): Option<bool>
    requires count <= |rules|
  {
    if count == 0 then None
    else if FirstDeciding(meets, tags, rules, count - 1, p).Some? then FirstDeciding(meets, tags, rules, count - 1, p)
    else if Decides(meets, tags, rules[count - 1], p) then Some(rules[count - 1].accept)
    else None
  }

  /** Which packets a policy lets through, read off its rules. */
  ghost predicate PolicyAccepts(meets: Reading, tags: Tags, rules: seq<Rule>, p: Packet) {
    || p.state in TRACKED
    || (p.state != Invalid && p.iif != ETH0 && p.oif != ETH0
        && FirstDeciding(meets, tags, rules, |rules|, p) == Some(true))
  }

  lemma {:induction false} DeclaredAre(entries: seq<PrefixEntry>, f: Family, count: nat, c: Cidr)
    requires count <= |entries|
    ensures c in Declared(entries, f, count) <==>
              exists i :: 0 <= i < count && EntryApplies(entries[i], f) && entries[i].prefix.value == c
  {
    if count > 0 {
      DeclaredAre(entries, f, count - 1, c);
    }
  }

  lemma DeclaredPrefixesMeaning(entries: seq<PrefixEntry>, f: Family, a: Ip)
    ensures DeclaredPrefixes(entries, f).Some? <==> HasPrefix(entries, f)
    ensures DeclaredPrefixes(entries, f).Some? ==>
              (InPrefixes(DeclaredPrefixes(entries, f).value, a) <==> InDeclared(entries, f, a))
  {
    hide Covers;
    var cidrs := Declared(entries, f, |entries|);
    if HasPrefix(entries, f) {
      var e :| e in entries && EntryApplies(e, f);
      DeclaredAre(entries, f, |entries|, e.prefix.value);
    }
    if cidrs != [] {
      DeclaredAre(entries, f, |entries|, cidrs[0]);
      assert cidrs[0] in cidrs;
      if InPrefixes(Prefixes(f, cidrs), a) {
        var c :| c in cidrs && Covers(c, a);
        DeclaredAre(entries, f, |entries|, c);
      }
      if InDeclared(entries, f, a) {
        var e :| e in entries && EntryApplies(e, f) && Covers(e.prefix.value, a);
        DeclaredAre(entries, f, |entries|, e.prefix.value);
      }
    }
  }

  lemma {:induction false} SuffixesAre(matches: seq<Option<Match>>, f: Family, count: nat, s: Suffix)
    requires count <= |matches| && Suffixes(matches, f, count).Ok?
    ensures s in Suffixes(matches, f, count).value <==>
              exists i :: 0 <= i < count && MatchApplies(matches[i], f) && SuffixOf(matches[i].value, f) == Ok(s)
  {
    hide SuffixOf;
    if count > 0 {
      SuffixesAre(matches, f, count - 1, s);
    }
  }

  lemma {:induction false} NoSuffixes(matches: seq<Option<Match>>, f: Family, count: nat)
    requires count <= |matches| && Suffixes(matches, f, count).Ok?
    ensures Suffixes(matches, f, count).value == [] <==> forall i | 0 <= i < count :: !MatchApplies(matches[i], f)
  {
    hide SuffixOf;
    if count > 0 {
      NoSuffixes(matches, f, count - 1);
    }
  }

  /** The interfaces, state and prefixes of a rule, without its protocol part. */
  lemma RuleWithMeaning(meets: Reading, rule: Rule, f: Family, s: Suffix, p: Packet)
    requires StateError(rule).None? && (rule.destinations != [] ==> HasPrefix(rule.destinations, f))
    ensures Hits(meets, RuleWith(rule, f, s), p) <==>
              && p.iif == rule.source && p.oif == rule.target
              && (rule.state == Some("established,related") ==> p.state in TRACKED)
              && (HasPrefix(rule.sources, f) ==> InDeclared(rule.sources, f, p.src))
              && (rule.destinations != [] ==> InDeclared(rule.destinations, f, p.dst))
              && Fits(meets, s, p)
  {
    DeclaredPrefixesMeaning(rule.sources, f, p.src);
    DeclaredPrefixesMeaning(rule.destinations, f, p.dst);
    hide DeclaredPrefixes, InPrefixes, InDeclared;
  }

  ghost predicate AnyHit(meets: Reading, rules: seq<NftRule>, p: Packet) {
    exists r :: r in rules && Hits(meets, r, p)
  }

  lemma FamilyRulesMeaning(meets: Reading, rule: Rule, f: Family, p: Packet)
    requires FamilyRules(rule, f).Ok? && StateError(rule).None?
    ensures AnyHit(meets, FamilyRules(rule, f).value, p) <==> Concerns(meets, rule, f, p)
    ensures FamilyRules(rule, f).value != [] <==> RendersIn(rule, f)
    ensures forall r | r in FamilyRules(rule, f).value :: r.accept == rule.accept
  {
    DeclaredPrefixesMeaning(rule.destinations, f, p.dst);
    if RendersIn(rule, f) || FamilyRules(rule, f).value != [] {
      var suffixes :=
        if rule.matches != [] then Suffixes(rule.matches, f, |rule.matches|).value
        else if rule.dns then [Suffix("udp", false, [DNS_PORT]), Suffix("tcp", false, [DNS_PORT])]
        else [ANY_TRAFFIC];
      assert FamilyRules(rule, f).value == RulesWith(rule, f, suffixes);
      NoSuffixes(rule.matches, f, |rule.matches|);
      SuffixesMeaning(meets, rule, f, suffixes, p);
      RulesWithMeaning(meets, rule, f, suffixes, p);
    }
  }

  lemma SuffixesMeaning(meets: Reading, rule: Rule, f: Family, suffixes: seq<Suffix>, p: Packet)
    requires rule.matches != [] ==> Suffixes(rule.matches, f, |rule.matches|) == Ok(suffixes)
    requires rule.matches == [] && rule.dns ==>
               suffixes == [Suffix("udp", false, [DNS_PORT]), Suffix("tcp", false, [DNS_PORT])]
    requires rule.matches == [] && !rule.dns ==> suffixes == [ANY_TRAFFIC]
    ensures InTraffic(meets, rule, f, p) <==> exists s :: s in suffixes && Fits(meets, s, p)
  {
    hide SuffixOf;
    if rule.matches == [] {
      assert forall s :: s in suffixes ==> s == suffixes[0] || s == suffixes[|suffixes| - 1];
      assert suffixes[0] in suffixes && suffixes[|suffixes| - 1] in suffixes;
    } else {
      if s :| s in suffixes && Fits(meets, s, p) {
        SuffixesAre(rule.matches, f, |rule.matches|, s);
      }
      if InTraffic(meets, rule, f, p) {
        var m :| m in rule.matches && MatchApplies(m, f) && SuffixOf(m.value, f).Ok?
                 && Fits(meets, SuffixOf(m.value, f).value, p);
        SuffixesAre(rule.matches, f, |rule.matches|, SuffixOf(m.value, f).value);
      }
    }
  }

  lemma RulesWithMeaning(meets: Reading, rule: Rule, f: Family, suffixes: seq<Suffix>, p: Packet)
    requires StateError(rule).None? && (rule.destinations != [] ==> HasPrefix(rule.destinations, f))
    requires InTraffic(meets, rule, f, p) <==> exists s :: s in suffixes && Fits(meets, s, p)
    ensures AnyHit(meets, RulesWith(rule, f, suffixes), p) <==> Concerns(meets, rule, f, p)
  {
    hide InTraffic, Hits, RuleWith, HasPrefix, InDeclared, StateError;
    var rules := RulesWith(rule, f, suffixes);
    if AnyHit(meets, rules, p) {
      var r :| r in rules && Hits(meets, r, p);
      var i :| 0 <= i < |rules| && rules[i] == r;
      RuleWithMeaning(meets, rule, f, suffixes[i], p);
    }
    if Concerns(meets, rule, f, p) {
      var s :| s in suffixes && Fits(meets, s, p);
      RuleWithMeaning(meets, rule, f, s, p);
      var i :| 0 <= i < |suffixes| && suffixes[i] == s;
      assert rules[i] == RuleWith(rule, f, s);
    }
  }

  lemma AnyHitAppend(meets: Reading, a: seq<NftRule>, b: seq<NftRule>, p: Packet)
    ensures AnyHit(meets, a + b, p) <==> AnyHit(meets, a, p) || AnyHit(meets, b, p)
  {
    hide Hits;
    if AnyHit(meets, a, p) {
      var r :| r in a && Hits(meets, r, p);
      assert r in a + b;
    }
    if AnyHit(meets, b, p) {
      var r :| r in b && Hits(meets, r, p);
      assert r in a + b;
    }
  }

  lemma {:induction false} FamiliesRulesMeaning(meets: Reading, rule: Rule, count: nat, p: Packet)
    requires count <= |Families(rule)| && FamiliesRules(rule, count).Ok? && StateError(rule).None?
    ensures AnyHit(meets, FamiliesRules(rule, count).value, p) <==>
              exists i :: 0 <= i < count && Concerns(meets, rule, Families(rule)[i], p)
    ensures FamiliesRules(rule, count).value != [] <==> exists i :: 0 <= i < count && RendersIn(rule, Families(rule)[i])
    ensures forall r | r in FamiliesRules(rule, count).value :: r.accept == rule.accept
  {
    if count > 0 {
      hide AnyHit, Concerns, RendersIn, FamilyRules, Families;
      FamiliesRulesMeaning(meets, rule, count - 1, p);
      FamilyRulesMeaning(meets, rule, Families(rule)[count - 1], p);
      AnyHitAppend(meets, FamiliesRules(rule, count - 1).value, FamilyRules(rule, Families(rule)[count - 1]).value, p);
    }
  }

  /** Between two interfaces: which packets the expanded rules hit, and when there are any. */
  lemma CpmRulesMeaning(meets: Reading, rule: Rule, p: Packet)
    requires CpmRules(rule).Ok?
    ensures CpmRules(rule).value != [] <==> Renders(rule)
    ensures AnyHit(meets, CpmRules(rule).value, p) <==>
              NamesInterfaces(rule) && exists f :: f in Families(rule) && Concerns(meets, rule, f, p)
    ensures forall r | r in CpmRules(rule).value :: r.accept == rule.accept
  {
    hide Concerns, RendersIn, FamilyRules, Families, StateError, Hits;
    if NamesInterfaces(rule) {
      FamiliesRulesMeaning(meets, rule, |Families(rule)|, p);
    }
  }

  lemma TaggedIs(tags: Tags, tenant: string, n: Name)
    ensures n in Tagged(tags, tenant) <==> n in tags && tenant in tags[n]
  {
  }

  lemma {:induction false} TenantRulesMeaning(meets: Reading, tags: Tags, rule: Rule, count: nat, p: Packet)
    requires count <= |rule.matches| && TenantRules(tags, rule, count).Ok?
    ensures AnyHit(meets, TenantRules(tags, rule, count).value, p) <==>
              && p.iif in Tagged(tags, rule.srcTenant) && p.oif in Tagged(tags, rule.dstTenant)
              && exists i :: 0 <= i < count && rule.matches[i].Some? && TenantSuffix(rule.matches[i].value).Ok?
                             && Fits(meets, TenantSuffix(rule.matches[i].value).value, p)
    ensures forall r | r in TenantRules(tags, rule, count).value :: r.accept == rule.accept
  {
    hide TenantSuffix, Fits, Tagged;
    if count > 0 {
      TenantRulesMeaning(meets, tags, rule, count - 1, p);
      var m := rule.matches[count - 1];
      if m.Some? {
        var r := TenantRule(tags, rule, TenantSuffix(m.value).value);
        AnyHitAppend(meets, TenantRules(tags, rule, count - 1).value, [r], p);
        assert AnyHit(meets, [r], p) <==> Hits(meets, r, p) by {
          assert r in [r];
        }
        hide AnyHit;
      }
    }
  }

  lemma TenantMeaning(meets: Reading, tags: Tags, rule: Rule, p: Packet)
    requires TenantRules(tags, rule, |rule.matches|).Ok?
    ensures NamesTenants(tags, rule) && AnyHit(meets, TenantRules(tags, rule, |rule.matches|).value, p)
            <==> TenantConcerns(meets, tags, rule, p)
  {
    hide AnyHit, TenantSuffix, Fits, TenantRules;
    TenantRulesMeaning(meets, tags, rule, |rule.matches|, p);
    TaggedIs(tags, rule.srcTenant, p.iif);
    TaggedIs(tags, rule.dstTenant, p.oif);
    hide Tagged;
  }

  /** The rules of one entry hit exactly the packets it concerns, all with its action. */
  lemma RuleRulesMeaning(meets: Reading, tags: Tags, rule: Rule, p: Packet)
    requires RuleRules(tags, rule).Ok?
    ensures AnyHit(meets, RuleRules(tags, rule).value, p) <==> Decides(meets, tags, rule, p)
    ensures forall r | r in RuleRules(tags, rule).value :: r.accept == rule.accept
  {
    hide CpmRules, Renders, Concerns, TenantConcerns, TenantRules, NamesTenants, Hits, Families;
    CpmRulesMeaning(meets, rule, p);
    if CpmRules(rule).value != [] {
      RendersNamesInterfaces(rule);
    } else if NamesTenants(tags, rule) {
      TenantRulesMeaning(meets, tags, rule, |rule.matches|, p);
      TenantMeaning(meets, tags, rule, p);
    } else {
      NoTenants(meets, tags, rule, p);
    }
  }

  lemma RendersNamesInterfaces(rule: Rule)
    requires Renders(rule)
    ensures NamesInterfaces(rule)
  {
  }

  lemma NoTenants(meets: Reading, tags: Tags, rule: Rule, p: Packet)
    requires !NamesTenants(tags, rule)
    ensures !TenantConcerns(meets, tags, rule, p)
  {
    hide TenantSuffix, Fits;
    TaggedIs(tags, rule.srcTenant, p.iif);
    TaggedIs(tags, rule.dstTenant, p.oif);
  }

  lemma {:induction false} FirstHitOfOne(meets: Reading, rules: seq<NftRule>, accept: bool, p: Packet)
    requires forall r | r in rules :: r.accept == accept
    ensures FirstHit(meets, rules, p) == if AnyHit(meets, rules, p) then Some(accept) else None
  {
    hide Hits;
    if rules != [] {
      FirstHitOfOne(meets, rules[1..], accept, p);
      assert rules == [rules[0]] + rules[1..];
      AnyHitAppend(meets, [rules[0]], rules[1..], p);
      assert rules[0] in [rules[0]];
    }
  }

  lemma FirstDecidingStep(meets: Reading, tags: Tags, rules: seq<Rule>, count: nat, p: Packet)
    requires 0 < count <= |rules|
    ensures FirstDeciding(meets, tags, rules, count, p)
         == (var before := FirstDeciding(meets, tags, rules, count - 1, p);
             if before.Some? then before
             else if Decides(meets, tags, rules[count - 1], p) then Some(rules[count - 1].accept) else None)
  {
    hide Decides;
  }

  lemma {:induction false} AllRulesMeaning(meets: Reading, tags: Tags, rules: seq<Rule>, count: nat, p: Packet)
    requires count <= |rules| && AllRules(tags, rules, count).Ok?
    ensures FirstHit(meets, AllRules(tags, rules, count).value, p) == FirstDeciding(meets, tags, rules, count, p)
  {
    if count > 0 {
      hide FirstHit, RuleRules, Decides, AnyHit, FirstDeciding;
      var rule := rules[count - 1];
      FirstDecidingStep(meets, tags, rules, count, p);
      assert AllRules(tags, rules, count).value
          == AllRules(tags, rules, count - 1).value + RuleRules(tags, rule).value;
      hide AllRules;
      AllRulesMeaning(meets, tags, rules, count - 1, p);
      RuleRulesMeaning(meets, tags, rule, p);
      FirstHitOfOne(meets, RuleRules(tags, rule).value, rule.accept, p);
      FirstHitAppend(meets, AllRules(tags, rules, count - 1).value, RuleRules(tags, rule).value, p);
    }
  }

  lemma BaseMeaning(meets: Reading, p: Packet)
    ensures FirstHit(meets, BASE, p) ==
            if p.state in TRACKED then Some(true)
            else if p.state == Invalid || p.iif == ETH0 || p.oif == ETH0 then Some(false)
            else None
  {
    assert BASE[1..][1..] == BASE[2..] && BASE[2..][1..] == BASE[3..] && BASE[3..][1..] == [];
    assert BASE[1..][0] == BASE[1] && BASE[2..][0] == BASE[2] && BASE[3..][0] == BASE[3];
    assert FirstHit(meets, BASE[3..], p) == if Hits(meets, BASE[3], p) then Some(false) else None;
    assert FirstHit(meets, BASE[2..], p)
        == if Hits(meets, BASE[2], p) then Some(false) else FirstHit(meets, BASE[3..], p);
  }

  /**
   * The rendered chain accepts exactly what the policy accepts: the packets of tracked
   * connections, and those whose first concerning rule accepts them.
   */
  lemma RenderedChainMeansPolicy(meets: Reading, tags: Tags, rules: seq<Rule>, p: Packet)
    requires Chain(tags, rules).Ok?
    ensures Accepts(meets, Chain(tags, rules).value, p) <==> PolicyAccepts(meets, tags, rules, p)
  {
    hide FirstHit, FirstDeciding, AllRules, Deduped;
    var all := AllRules(tags, rules, |rules|).value;
    AllRulesMeaning(meets, tags, rules, |rules|, p);
    DedupKeepsVerdict(meets, all, p);
    BaseMeaning(meets, p);
    FirstHitAppend(meets, BASE, Deduped(all), p);
  }

  // --------------------------------------------------------------------------- gates

  /** A rule with declared destinations never matches a packet outside them. */
  lemma DestinationGate(meets: Reading, rule: Rule, r: NftRule, p: Packet)
    requires CpmRules(rule).Ok? && r in CpmRules(rule).value && Hits(meets, r, p)
    requires rule.destinations != []
    ensures exists e :: e in rule.destinations && e.prefix.Some? && Covers(e.prefix.value, p.dst)
  {
    CpmRulesMeaning(meets, rule, p);
    assert AnyHit(meets, CpmRules(rule).value, p);
    var f :| f in Families(rule) && Concerns(meets, rule, f, p);
  }

  /** A return rule either stops the rendering or never matches a new flow. */
  lemma ReturnRuleNeedsTrackedFlow(meets: Reading, rule: Rule, p: Packet)
    requires rule.isReturn && NamesInterfaces(rule)
    ensures CpmRules(rule).Ok? ==> rule.state == Some("established,related")
    ensures CpmRules(rule).Ok? && AnyHit(meets, CpmRules(rule).value, p) ==> p.state in TRACKED
  {
    if CpmRules(rule).Ok? {
      CpmRulesMeaning(meets, rule, p);
    }
  }

  /** Every packet that a rule restricted to tracked flows hits was accepted before. */
  lemma TrackedRulesComeTooLate(meets: Reading, tags: Tags, rules: seq<Rule>, k: nat, p: Packet)
    requires Chain(tags, rules).Ok? && |BASE| <= k < |Chain(tags, rules).value|
    requires Chain(tags, rules).value[k].states == Some(TRACKED) && Hits(meets, Chain(tags, rules).value[k], p)
    ensures FirstHit(meets, Chain(tags, rules).value[..k], p) == Some(true)
  {
    hide FirstHit, AllRules, Deduped;
    var chain := Chain(tags, rules).value;
    assert chain[..k] == BASE + chain[|BASE|..k];
    BaseMeaning(meets, p);
    FirstHitAppend(meets, BASE, chain[|BASE|..k], p);
  }

  /** Some packet of the family passes the destination gate and is of a listed kind. */
  ghost predicate Reaches(rule: Rule, f: Family) {
    && (rule.destinations != [] ==>
          exists e :: e in rule.destinations && EntryApplies(e, f) && Valid(e.prefix.value)
              && e.prefix.value.ip.family == f)
    && (rule.matches != [] ==> exists m :: m in rule.matches && MatchApplies(m, f))
  }

  ghost predicate FromDeclared(rule: Rule, a: Ip) {
    exists e :: e in rule.sources && e.prefix.Some? && Covers(e.prefix.value, a)
  }

  predicate ValidIp(a: Ip) {
    a.value < Pow2(Width(a.family))
  }

  /** A packet of one address family. */
  predicate Proper(p: Packet) {
    ValidIp(p.src) && ValidIp(p.dst) && p.src.family == p.dst.family
  }

  ghost predicate ToDeclared(rule: Rule, a: Ip) {
    exists e :: e in rule.destinations && e.prefix.Some? && Covers(e.prefix.value, a)
  }

  const PERMISSIVE: Reading := (suffix, p) => true

  /** The rule also has a form between tenants, which knows no state, family or prefix. */
  predicate HasTenantForm(tags: Tags, rule: Rule) {
    NamesTenants(tags, rule) && exists m :: m in rule.matches && m.Some?
  }

  lemma WhichForm(meets: Reading, tags: Tags, rule: Rule, p: Packet)
    requires RuleRules(tags, rule).Ok?
    ensures CpmRules(rule).Ok?
    ensures Renders(rule) ==> NamesInterfaces(rule) && RuleRules(tags, rule) == CpmRules(rule)
    ensures !Renders(rule) && HasTenantForm(tags, rule) ==> TenantRules(tags, rule, |rule.matches|).Ok?
    ensures !Renders(rule) && AnyHit(meets, RuleRules(tags, rule).value, p) ==> HasTenantForm(tags, rule)
  {
    CpmRulesMeaning(meets, rule, p);
    RuleRulesMeaning(meets, tags, rule, p);
    hide CpmRules, TenantRules, Concerns, NamesInterfaces, Families, RendersIn;
    if !Renders(rule) && AnyHit(meets, RuleRules(tags, rule).value, p) {
      var m :| m in rule.matches && m.Some?;
      if !NamesTenants(tags, rule) {
        NoTenants(meets, tags, rule, p);
      }
    }
  }

  /** Without a form between interfaces, the tenants' rule hits packets of any state between any addresses. */
  lemma TenantPacket(tags: Tags, rule: Rule, src: Ip, dst: Ip) returns (p: Packet)
    requires RuleRules(tags, rule).Ok? && !Renders(rule) && HasTenantForm(tags, rule)
    ensures p.state == New && p.src == src && p.dst == dst
    ensures AnyHit(PERMISSIVE, RuleRules(tags, rule).value, p)
  {
    var iifs, oifs := Tagged(tags, rule.srcTenant), Tagged(tags, rule.dstTenant);
    p := Packet(iifs[0], oifs[0], New, src, dst, "", 0);
    WhichForm(PERMISSIVE, tags, rule, p);
    var m :| m in rule.matches && m.Some?;
    var i :| 0 <= i < |rule.matches| && rule.matches[i] == m;
    TenantSuffixOk(tags, rule, |rule.matches|, i);
    hide TenantRules, CpmRules, Tagged, Renders, TenantSuffix;
    TenantRulesMeaning(PERMISSIVE, tags, rule, |rule.matches|, p);
    TenantMeaning(PERMISSIVE, tags, rule, p);
    RuleRulesMeaning(PERMISSIVE, tags, rule, p);
  }

  lemma {:induction false} TenantSuffixOk(tags: Tags, rule: Rule, count: nat, i: nat)
    requires i < count <= |rule.matches| && TenantRules(tags, rule, count).Ok? && rule.matches[i].Some?
    ensures TenantSuffix(rule.matches[i].value).Ok?
    decreases count
  {
    if i < count - 1 {
      TenantSuffixOk(tags, rule, count - 1, i);
    }
  }

  /**
   * Declared destinations bind every packet a rule can hit if and only if the rule has a
   * form between interfaces, or none between tenants (or declares every address there is).
   */
  lemma DestinationGateIff(tags: Tags, rule: Rule)
    requires RuleRules(tags, rule).Ok? && rule.destinations != []
    ensures (forall meets: Reading, p | Proper(p) && AnyHit(meets, RuleRules(tags, rule).value, p) ::
               ToDeclared(rule, p.dst))
       <==> Renders(rule) || !HasTenantForm(tags, rule) || forall a | ValidIp(a) :: ToDeclared(rule, a)
  {
    hide CpmRules, RuleRules, Renders, HasTenantForm, Hits, ToDeclared;
    if Renders(rule) || !HasTenantForm(tags, rule) || forall a | ValidIp(a) :: ToDeclared(rule, a) {
      forall meets: Reading, p | Proper(p) && AnyHit(meets, RuleRules(tags, rule).value, p)
        ensures ToDeclared(rule, p.dst)
      {
        WhichForm(meets, tags, rule, p);
        if Renders(rule) {
          var r :| r in RuleRules(tags, rule).value && Hits(meets, r, p);
          DeclaredDestination(meets, rule, r, p);
        }
      }
    } else {
      var a :| ValidIp(a) && !ToDeclared(rule, a);
      var p := TenantPacket(tags, rule, a, a);
    }
  }

  lemma DeclaredDestination(meets: Reading, rule: Rule, r: NftRule, p: Packet)
    requires CpmRules(rule).Ok? && r in CpmRules(rule).value && Hits(meets, r, p) && rule.destinations != []
    ensures ToDeclared(rule, p.dst)
  {
    DestinationGate(meets, rule, r, p);
  }

  /**
   * A return rule that renders never hits a new flow if and only if it has a form between
   * interfaces, or none between tenants.
   */
  lemma ReturnGateIff(tags: Tags, rule: Rule)
    requires RuleRules(tags, rule).Ok? && rule.isReturn
    ensures (forall meets: Reading, p | Proper(p) && AnyHit(meets, RuleRules(tags, rule).value, p) ::
               p.state in TRACKED)
       <==> Renders(rule) || !HasTenantForm(tags, rule)
  {
    hide CpmRules, RuleRules, Renders, HasTenantForm, AnyHit, NamesInterfaces;
    if Renders(rule) || !HasTenantForm(tags, rule) {
      forall meets: Reading, p | Proper(p) && AnyHit(meets, RuleRules(tags, rule).value, p)
        ensures p.state in TRACKED
      {
        WhichForm(meets, tags, rule, p);
        ReturnRuleNeedsTrackedFlow(meets, rule, p);
      }
    } else {
      var p := TenantPacket(tags, rule, Ip(V4, 0), Ip(V4, 0));
    }
  }

  /**
   * A rule of one family hits only packets of that family if and only if a prefix says
   * so in the rule's text: the family itself is no part of it.
   */
  lemma FamilyGateIff(tags: Tags, rule: Rule)
    requires RuleRules(tags, rule).Ok? && rule.family.Some?
    ensures (forall meets: Reading, p | Proper(p) && AnyHit(meets, RuleRules(tags, rule).value, p) ::
               p.src.family == rule.family.value)
       <==> (if Renders(rule) then HasPrefix(rule.sources, rule.family.value) || rule.destinations != []
             else !HasTenantForm(tags, rule))
  {
    var f := rule.family.value;
    var other := Ip(if f == V4 then V6 else V4, 0);
    hide CpmRules, RuleRules, HasTenantForm, AnyHit, HasPrefix;
    if Renders(rule) {
      forall meets: Reading, p | Proper(p) && AnyHit(meets, RuleRules(tags, rule).value, p)
                                 && (HasPrefix(rule.sources, f) || rule.destinations != [])
        ensures p.src.family == f
      {
        WhichForm(meets, tags, rule, p);
        CpmRulesMeaning(meets, rule, p);
      }
      if !HasPrefix(rule.sources, f) && rule.destinations == [] {
        assert RendersIn(rule, f) && Reaches(rule, f);
        hide Renders, RendersIn, Reaches;
        var p := ReachingPacket(tags, rule, f, other);
      }
    } else {
      hide Renders;
      forall meets: Reading, p | AnyHit(meets, RuleRules(tags, rule).value, p)
        ensures HasTenantForm(tags, rule)
      {
        WhichForm(meets, tags, rule, p);
      }
      if HasTenantForm(tags, rule) {
        var p := TenantPacket(tags, rule, other, other);
      }
    }
  }

  /** A packet from a given source that the rule of a family without source prefixes hits. */
  lemma ReachingPacket(tags: Tags, rule: Rule, f: Family, src: Ip) returns (p: Packet)
    requires RuleRules(tags, rule).Ok? && Renders(rule) && f in Families(rule) && Reaches(rule, f)
    requires !HasPrefix(rule.sources, f) && ValidIp(src) && (rule.destinations != [] ==> src.family == f)
    ensures Proper(p) && p.src == src && AnyHit(PERMISSIVE, RuleRules(tags, rule).value, p)
  {
    hide CpmRules, Renders, RuleRules, Families;
    var dst := Ip(src.family, 0);
    if rule.destinations != [] {
      var e :| e in rule.destinations && EntryApplies(e, f) && Valid(e.prefix.value) && e.prefix.value.ip.family == f;
      dst := Ip(f, NetworkAddress(e.prefix.value));
      assert Covers(e.prefix.value, dst);
    }
    p := Packet(rule.source, rule.target, Established, src, dst, "", 0);
    WhichForm(PERMISSIVE, tags, rule, p);
    CpmRulesMeaning(PERMISSIVE, rule, p);
    SomeTraffic(rule, f, p);
    assert Concerns(PERMISSIVE, rule, f, p);
  }

  /**
   * In family `f` the declared sources leave no way around: the family has source prefixes
   * of its own, or whatever else it lets through is declared as well.
   */
  ghost predicate SourcesBind(rule: Rule, f: Family) {
    || HasPrefix(rule.sources, f)
    || forall a | ValidIp(a) && (rule.destinations != [] ==> a.family == f) :: FromDeclared(rule, a)
  }

  /**
   * Declared sources bind every packet a rule can hit if and only if they bind in each
   * family that the rule reaches; a rule between tenants has no sources at all.
   */
  lemma SourceGateExactly(tags: Tags, rule: Rule)
    requires RuleRules(tags, rule).Ok?
    ensures (forall meets: Reading, p | Proper(p) && AnyHit(meets, RuleRules(tags, rule).value, p) ::
               FromDeclared(rule, p.src))
       <==> (if Renders(rule) then forall f | f in Families(rule) && Reaches(rule, f) :: SourcesBind(rule, f)
             else !HasTenantForm(tags, rule) || forall a | ValidIp(a) :: FromDeclared(rule, a))
  {
    hide CpmRules, RuleRules, Renders, HasTenantForm, AnyHit, FromDeclared, Families;
    if Renders(rule) {
      RenderedSourceGate(tags, rule);
    } else {
      forall meets: Reading, p | AnyHit(meets, RuleRules(tags, rule).value, p)
        ensures HasTenantForm(tags, rule)
      {
        WhichForm(meets, tags, rule, p);
      }
      if HasTenantForm(tags, rule) && exists a | ValidIp(a) :: !FromDeclared(rule, a) {
        var a :| ValidIp(a) && !FromDeclared(rule, a);
        var p := TenantPacket(tags, rule, a, a);
      }
    }
  }

  lemma RenderedSourceGate(tags: Tags, rule: Rule)
    requires RuleRules(tags, rule).Ok? && Renders(rule)
    ensures (forall meets: Reading, p | Proper(p) && AnyHit(meets, RuleRules(tags, rule).value, p) ::
               FromDeclared(rule, p.src))
       <==> (forall f | f in Families(rule) && Reaches(rule, f) :: SourcesBind(rule, f))
  {
    hide CpmRules, RuleRules, Renders, AnyHit, FromDeclared, Families;
    if forall f | f in Families(rule) && Reaches(rule, f) :: SourcesBind(rule, f) {
      forall meets: Reading, p | Proper(p) && AnyHit(meets, RuleRules(tags, rule).value, p)
        ensures FromDeclared(rule, p.src)
      {
        WhichForm(meets, tags, rule, p);
        SourceGate(meets, rule, p);
      }
    } else {
      var f :| f in Families(rule) && Reaches(rule, f) && !SourcesBind(rule, f);
      var a :| ValidIp(a) && (rule.destinations != [] ==> a.family == f) && !FromDeclared(rule, a);
      var p := ReachingPacket(tags, rule, f, a);
    }
  }

  lemma SourceGate(meets: Reading, rule: Rule, p: Packet)
    requires CpmRules(rule).Ok? && Proper(p) && AnyHit(meets, CpmRules(rule).value, p)
    requires forall f | f in Families(rule) && Reaches(rule, f) :: SourcesBind(rule, f)
    ensures FromDeclared(rule, p.src)
  {
    hide CpmRules, Families;
    CpmRulesMeaning(meets, rule, p);
    var f :| f in Families(rule) && Concerns(meets, rule, f, p);
    assert Reaches(rule, f);
  }

  /** A rule that rendered has a protocol part for every match that applies. */
  lemma SomeTraffic(rule: Rule, f: Family, p: Packet)
    requires CpmRules(rule).Ok? && NamesInterfaces(rule) && f in Families(rule) && Reaches(rule, f)
    ensures InTraffic(PERMISSIVE, rule, f, p)
  {
    if rule.matches != [] {
      FamilyRendered(rule, f);
      DeclaredPrefixesMeaning(rule.destinations, f, p.dst);
      NoSuffixes(rule.matches, f, |rule.matches|);
      var suffixes := Suffixes(rule.matches, f, |rule.matches|).value;
      SuffixesAre(rule.matches, f, |rule.matches|, suffixes[0]);
    }
  }

  lemma FamilyRendered(rule: Rule, f: Family)
    requires CpmRules(rule).Ok? && NamesInterfaces(rule) && f in Families(rule)
    ensures FamilyRules(rule, f).Ok?
  {
    hide FamilyRules;
    if rule.family.None? {
      assert FamiliesRules(rule, 2).Ok? && FamiliesRules(rule, 1).Ok?;
    } else {
      assert FamiliesRules(rule, 1).Ok?;
    }
  }

  // ------------------------------------------------------------- where the gates fail

  const FROM := Name("i")
  const TO := Name("o")
  const TCP := Match(AnyFamily, Some("tcp"), NoPorts)

  /** An IPv4 return rule whose only destination is an IPv6 address, between two tenants. */
  const FALLBACK := Rule(
    FROM, TO, true, false, Some(V4), None, Some("established,related"), true, [],
    [PrefixEntry(Some(V6), Some(Cidr(Ip(V6, 0), 128)))], [Some(TCP)], "x", "y")

  const TENANTS: Tags := map[Name("a") := ["x"], Name("b") := ["y"]]

  const NEW_FLOW := Packet(Name("a"), Name("b"), New, Ip(V4, 2), Ip(V4, 1), "tcp", 22)

  /** The rule renders, in its tenants' form, and hits a new flow to an undeclared address. */
  lemma FallbackLosesGates()
    ensures RuleRules(TENANTS, FALLBACK).Ok? && !Renders(FALLBACK) && HasTenantForm(TENANTS, FALLBACK)
    ensures Proper(NEW_FLOW) && AnyHit(PERMISSIVE, RuleRules(TENANTS, FALLBACK).value, NEW_FLOW)
    ensures NEW_FLOW.state !in TRACKED && !ToDeclared(FALLBACK, NEW_FLOW.dst)
  {
    hide CpmRules, TenantRules, Tagged, AnyHit;
    FallbackRenders();
    assert !RendersIn(FALLBACK, V4);
    assert Families(FALLBACK) == [V4];
    hide RendersIn;
    TaggedIs(TENANTS, "x", Name("a"));
    TaggedIs(TENANTS, "y", Name("b"));
    assert Some(TCP) in FALLBACK.matches;
    assert TenantConcerns(PERMISSIVE, TENANTS, FALLBACK, NEW_FLOW);
    RuleRulesMeaning(PERMISSIVE, TENANTS, FALLBACK, NEW_FLOW);
  }

  lemma FallbackRenders()
    ensures RuleRules(TENANTS, FALLBACK).Ok? && TenantSuffix(TCP).Ok?
  {
    var rule := FALLBACK;
    assert !EntryApplies(rule.destinations[0], V4);
    assert Declared(rule.destinations, V4, 0) == [];
    assert Declared(rule.destinations, V4, 1) == [];
    assert FamiliesRules(rule, 0) == Ok([]) && FamiliesRules(rule, 1) == Ok([]);
    assert TenantRules(TENANTS, rule, 0) == Ok([]);
    hide Tagged;
    assert TenantRules(TENANTS, rule, 1).Ok?;
  }

  /** A plain rule between two interfaces with the given family and sources. */
  function PlainRule(family: Option<Family>, sources: seq<PrefixEntry>): Rule {
    Rule(FROM, TO, true, false, family, None, None, false, sources, [], [], "", "")
  }

  lemma PlainRuleHits(family: Option<Family>, sources: seq<PrefixEntry>, f: Family, p: Packet)
    requires f in Families(PlainRule(family, sources)) && !HasPrefix(sources, f) && p.iif == FROM && p.oif == TO
    ensures (var rule := PlainRule(family, sources);
             && RuleRules(map[], rule).Ok? && Renders(rule)
             && AnyHit(PERMISSIVE, RuleRules(map[], rule).value, p))
  {
    var rule := PlainRule(family, sources);
    assert Suffixes(rule.matches, V4, 0) == Ok([]) && Suffixes(rule.matches, V6, 0) == Ok([]);
    hide Suffixes, RulesWith;
    assert FamilyRules(rule, V4).Ok? && FamilyRules(rule, V6).Ok?;
    hide FamilyRules;
    assert FamiliesRules(rule, 0).Ok? && FamiliesRules(rule, 1).Ok?;
    assert |Families(rule)| == 2 ==> FamiliesRules(rule, 2).Ok?;
    hide FamiliesRules;
    assert CpmRules(rule).Ok? && RendersIn(rule, f);
    CpmRulesMeaning(PERMISSIVE, rule, p);
    assert Concerns(PERMISSIVE, rule, f, p);
  }

  const FROM_IPV6 := Packet(FROM, TO, New, Ip(V6, 2), Ip(V6, 1), "tcp", 22)

  /** A rule of family 4 without prefixes hits an IPv6 packet. */
  lemma FamilyFourHitsIpv6()
    ensures (var rule := PlainRule(Some(V4), []);
             && RuleRules(map[], rule).Ok? && Renders(rule) && Proper(FROM_IPV6)
             && AnyHit(PERMISSIVE, RuleRules(map[], rule).value, FROM_IPV6) && FROM_IPV6.src.family != V4)
  {
    PlainRuleHits(Some(V4), [], V4, FROM_IPV6);
  }

  /** The one declared source, 10.0.0.1, and a packet from its neighbour. */
  const SOURCES := [PrefixEntry(Some(V4), Some(Cidr(Ip(V4, 0x0A00_0001), 32)))]
  const NEIGHBOUR := Packet(FROM, TO, New, Ip(V4, 0x0A00_0002), Ip(V4, 1), "tcp", 22)

  /** Sources declared for IPv4 alone do not even bind IPv4: the rule of family 6 names no source. */
  lemma NeighbourIsHit()
    ensures (var rule := PlainRule(None, SOURCES);
             && RuleRules(map[], rule).Ok? && Renders(rule) && Proper(NEIGHBOUR)
             && AnyHit(PERMISSIVE, RuleRules(map[], rule).value, NEIGHBOUR) && !FromDeclared(rule, NEIGHBOUR.src))
  {
    var rule, e := PlainRule(None, SOURCES), SOURCES[0];
    assert forall x :: x in SOURCES <==> x == e;
    PlainRuleHits(None, SOURCES, V6, NEIGHBOUR);
    hide RuleRules, Renders, AnyHit;
    assert Pow2(0) == 1;
    PowersOfIpv4();
    hide Pow2;
    assert !Covers(e.prefix.value, NEIGHBOUR.src);
  }
}
