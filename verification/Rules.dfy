/**
Routing rules: three-valued evaluation that asks for DNS only when an IP condition still matters,
and the loop over the rule list that looks a name up at most once.
*/
module Rules {
  import opened Prelude
  import opened Addresses
  import Domains
  import IpSets

  /** Conditions that need no address. References are GEOIP, GEOSITE and RULE-SET before binding. */
  datatype Plain =
    | Domain(domain: string)
    | Suffix(domain: string)
    | Keyword(keyword: string)
    | Regex(test: string -> bool)
    | DomainList(domains: Domains.DomainSet)
    | Port(port: u16)
    | Ports(ranges: seq<(u16, u16)>)
    | Network(network: string)
    | Reference(kind: string, name: string)
    | All

  /** Conditions on the address. */
  datatype OnIp =
    | Net(net: IpNet)
    | Nets(nets: IpSets.IpSet)
    | ExternalIp(test: Ip -> bool)

  datatype Matcher =
    | Simple(plain: Plain)
    | Address(condition: OnIp)
    | And(nodes: seq<Matcher>)
    | Or(nodes: seq<Matcher>)
    | Not(m: Matcher)
    | NoResolve(m: Matcher)

  /** What a rule sees of a connection apart from the address; the host is normalised. */
  datatype Query = Query(host: string, port: u16, network: string)

  predicate IpHolds(c: OnIp, ip: Ip) {
    match c
    case Net(net) => Contains(net, ip)
    case Nets(nets) => IpSets.Has(nets, ip)
    case ExternalIp(test) => test(ip)
  }

  predicate PlainHolds(c: Plain, q: Query) {
    match c
    case Domain(d) => q.host == d
    case Suffix(d) => Domains.Under(q.host, d)
    case Keyword(k) => Domains.HasPart(q.host, k)
    case Regex(test) => test(q.host)
    case DomainList(s) => Domains.SomeMember(s, q.host)
    case Port(p) => p == q.port
    case Ports(ranges) => exists r :: r in ranges && r.0 <= q.port <= r.1
    case Network(n) => n == q.network
    case Reference(_, _) => false
    case All => true
  }

  /** Two-valued meaning: an IP condition on an unknown address is false. */
  predicate Holds(m: Matcher, q: Query, ip: Option<Ip>) {
    match m
    case Simple(c) => PlainHolds(c, q)
    case Address(c) => ip.Some? && IpHolds(c, ip.value)
    case Not(n) => !Holds(n, q, ip)
    case NoResolve(n) => Holds(n, q, ip)
    case And(nodes) => forall i :: 0 <= i < |nodes| ==> Holds(nodes[i], q, ip)
    case Or(nodes) => exists i :: 0 <= i < |nodes| && Holds(nodes[i], q, ip)
  }

  /**
  Three-valued meaning, as what the condition can turn out to be when every IP condition that may
  still be resolved is free to be true or false.
  */
  predicate CanBe(m: Matcher, q: Query, ip: Option<Ip>, canResolve: bool, value: bool) {
    match m
    case Simple(c) => PlainHolds(c, q) == value
    case Address(c) => if ip.Some? then IpHolds(c, ip.value) == value else canResolve || !value
    case Not(n) => CanBe(n, q, ip, canResolve, !value)
    case NoResolve(n) => CanBe(n, q, ip, false, value)
    case And(nodes) =>
      if value then forall i :: 0 <= i < |nodes| ==> CanBe(nodes[i], q, ip, canResolve, true)
      else exists i :: 0 <= i < |nodes| && CanBe(nodes[i], q, ip, canResolve, false)
    case Or(nodes) =>
      if value then exists i :: 0 <= i < |nodes| && CanBe(nodes[i], q, ip, canResolve, true)
      else forall i :: 0 <= i < |nodes| ==> CanBe(nodes[i], q, ip, canResolve, false)
  }

  /** The verdict is the only possible value, or nothing while both are possible. */
  predicate Verdict(r: Option<bool>, m: Matcher, q: Query, ip: Option<Ip>, canResolve: bool) {
    && (CanBe(m, q, ip, canResolve, true) <==> r != Some(false))
    && (CanBe(m, q, ip, canResolve, false) <==> r != Some(true))
  }

  predicate ValidOnIp(c: OnIp) {
    c.Nets? ==> IpSets.ValidIndex(c.nets)
  }

  /** Every interval index in the condition is one that was built. */
  predicate Valid(m: Matcher) {
    match m
    case Simple(_) => true
    case Address(c) => ValidOnIp(c)
    case And(nodes) => forall i :: 0 <= i < |nodes| ==> Valid(nodes[i])
    case Or(nodes) => forall i :: 0 <= i < |nodes| ==> Valid(nodes[i])
    case Not(n) => Valid(n)
    case NoResolve(n) => Valid(n)
  }

  /** What the conditions on names and ports say, without the way they are computed. */
  lemma PlainMeans(q: Query, domain: string, keyword: string, ranges: seq<(u16, u16)>)
    ensures PlainHolds(Suffix(domain), q) <==> q.host == domain || exists name: string :: q.host == name + "." + domain
    ensures PlainHolds(Keyword(keyword), q) <==> exists before: string, after: string :: q.host == before + keyword + after
    ensures PlainHolds(Ports(ranges), q) <==> exists i :: 0 <= i < |ranges| && ranges[i].0 <= q.port <= ranges[i].1
  {
    Domains.UnderMeans(q.host, domain);
    Domains.HasPartMeans(q.host, keyword);
  }

  method EvaluatePlain(c: Plain, q: Query) returns (r: bool)
    ensures r == PlainHolds(c, q)
  {
    match c
    case DomainList(domains) =>
      r := Domains.Matches(domains, q.host);
    case Suffix(d) =>
      r := q.host == d;
      if !r && Domains.EndsWith(q.host, d) {
        Domains.UnderByStripping(q.host, d);
        r := Domains.EndsWith(q.host[..|q.host| - |d|], ".");
      }
    case Ports(ranges) =>
      r := false;
      for i := 0 to |ranges|
        invariant !r && forall j :: 0 <= j < i ==> !(ranges[j].0 <= q.port <= ranges[j].1)
      {
        if ranges[i].0 <= q.port <= ranges[i].1 { return true; }
      }
    case Keyword(keyword) =>
      r := false;
      for i := 0 to |q.host| + 1
        invariant !r && forall j :: 0 <= j < i ==> !Domains.PartAt(q.host, keyword, j)
      {
        if Domains.PartAt(q.host, keyword, i) { return true; }
      }
    case Domain(d) => r := q.host == d;
    case Regex(test) => r := test(q.host);
    case Port(port) => r := port == q.port;
    case Network(network) => r := network == q.network;
    case Reference(_, _) => r := false;
    case All => r := true;
  }

  method EvaluateIp(c: OnIp, ip: Ip) returns (r: bool)
    requires ValidOnIp(c)
    ensures r == IpHolds(c, ip)
  {
    if c.Nets? {
      r := IpSets.Matches(c.nets, ip);
    } else {
      r := IpHolds(c, ip);
    }
  }

  /** `evaluate`: nothing is answered exactly when the resolvable IP conditions leave it open. */
  method Evaluate(m: Matcher, q: Query, ip: Option<Ip>, canResolve: bool) returns (r: Option<bool>)
    requires Valid(m)
    ensures Verdict(r, m, q, ip, canResolve)
    decreases m, 1
  {
    match m
    case Simple(c) =>
      var v := EvaluatePlain(c, q);
      r := Some(v);
    case Address(c) =>
      if ip.Some? {
        var v := EvaluateIp(c, ip.value);
        r := Some(v);
      } else {
        r := if canResolve then None else Some(false);
      }
    case Not(n) =>
      var v := Evaluate(n, q, ip, canResolve);
      r := if v.Some? then Some(!v.value) else None;
    case NoResolve(n) =>
      r := Evaluate(n, q, ip, false);
    case And(_) =>
      r := EvaluateNodes(m, q, ip, canResolve);
    case Or(_) =>
      r := EvaluateNodes(m, q, ip, canResolve);
  }

  method EvaluateNodes(m: Matcher, q: Query, ip: Option<Ip>, canResolve: bool) returns (r: Option<bool>)
    requires Valid(m) && (m.And? || m.Or?)
    ensures Verdict(r, m, q, ip, canResolve)
    decreases m, 0
  {
    var and := m.And?;
    var unknown := false;
    var i := 0;
    while i < |m.nodes|
      invariant 0 <= i <= |m.nodes|
      invariant forall j :: 0 <= j < i ==> CanBe(m.nodes[j], q, ip, canResolve, and)
      invariant unknown <==> exists j :: 0 <= j < i && CanBe(m.nodes[j], q, ip, canResolve, !and)
    {
      var v := Evaluate(m.nodes[i], q, ip, canResolve);
      if v.Some? && v.value != and {
        return v;
      }
      if v.None? { unknown := true; }
      i := i + 1;
    }
    r := if unknown then None else Some(and);
  }

  // ---------- soundness ----------

  /** When nothing can be resolved any more, the only possible value is the two-valued meaning. */
  lemma {:induction false} SettledIsTwoValued(m: Matcher, q: Query, ip: Option<Ip>, value: bool)
    ensures CanBe(m, q, ip, false, value) <==> Holds(m, q, ip) == value
    decreases m
  {
    match m
    case Simple(_) =>
    case Address(_) =>
    case Not(n) => SettledIsTwoValued(n, q, ip, !value);
    case NoResolve(n) => SettledIsTwoValued(n, q, ip, value);
    case And(nodes) =>
      forall i | 0 <= i < |nodes| ensures CanBe(nodes[i], q, ip, false, value) <==> Holds(nodes[i], q, ip) == value {
        SettledIsTwoValued(nodes[i], q, ip, value);
      }
    case Or(nodes) =>
      forall i | 0 <= i < |nodes| ensures CanBe(nodes[i], q, ip, false, value) <==> Holds(nodes[i], q, ip) == value {
        SettledIsTwoValued(nodes[i], q, ip, value);
      }
  }

  predicate HasAddress(m: Matcher) {
    match m
    case Simple(_) => false
    case Address(_) => true
    case Not(n) => HasAddress(n)
    case NoResolve(n) => HasAddress(n)
    case And(nodes) => exists i :: 0 <= i < |nodes| && HasAddress(nodes[i])
    case Or(nodes) => exists i :: 0 <= i < |nodes| && HasAddress(nodes[i])
  }

  /** No IP condition stands under a no-resolve. */
  predicate LazySafe(m: Matcher) {
    match m
    case Simple(_) => true
    case Address(_) => true
    case Not(n) => LazySafe(n)
    case NoResolve(n) => !HasAddress(n)
    case And(nodes) => forall i :: 0 <= i < |nodes| ==> LazySafe(nodes[i])
    case Or(nodes) => forall i :: 0 <= i < |nodes| ==> LazySafe(nodes[i])
  }

  /** Without IP conditions the address, and the leave to resolve it, do not matter. */
  lemma {:induction false} AddressFree(m: Matcher, q: Query, ip: Option<Ip>, canResolve: bool, value: bool)
    requires !HasAddress(m)
    ensures CanBe(m, q, None, canResolve, value) <==> Holds(m, q, ip) == value
    decreases m
  {
    match m
    case Simple(_) =>
    case Not(n) => AddressFree(n, q, ip, canResolve, !value);
    case NoResolve(n) => AddressFree(n, q, ip, false, value);
    case And(nodes) =>
      forall i | 0 <= i < |nodes| ensures CanBe(nodes[i], q, None, canResolve, value) <==> Holds(nodes[i], q, ip) == value {
        AddressFree(nodes[i], q, ip, canResolve, value);
      }
    case Or(nodes) =>
      forall i | 0 <= i < |nodes| ensures CanBe(nodes[i], q, None, canResolve, value) <==> Holds(nodes[i], q, ip) == value {
        AddressFree(nodes[i], q, ip, canResolve, value);
      }
  }

  /** Whatever the address turns out to be, the value is one of the possible ones. */
  lemma {:induction false} EveryOutcomeIsPossible(m: Matcher, q: Query, ip: Option<Ip>)
    requires ip.None? || LazySafe(m)
    ensures CanBe(m, q, None, true, Holds(m, q, ip))
    decreases m
  {
    match m
    case Simple(_) =>
    case Address(_) =>
    case Not(n) => EveryOutcomeIsPossible(n, q, ip);
    case NoResolve(n) =>
      if ip.None? {
        SettledIsTwoValued(n, q, None, Holds(n, q, None));
      } else {
        AddressFree(n, q, ip, false, Holds(n, q, ip));
      }
    case And(nodes) =>
      forall i | 0 <= i < |nodes| ensures CanBe(nodes[i], q, None, true, Holds(nodes[i], q, ip)) {
        EveryOutcomeIsPossible(nodes[i], q, ip);
      }
    case Or(nodes) =>
      forall i | 0 <= i < |nodes| ensures CanBe(nodes[i], q, None, true, Holds(nodes[i], q, ip)) {
        EveryOutcomeIsPossible(nodes[i], q, ip);
      }
  }

  /** An early verdict is the verdict after any lookup, under the two-valued meaning. */
  lemma EarlyVerdictIsFinal(m: Matcher, q: Query, ip: Option<Ip>, v: bool)
    requires Verdict(Some(v), m, q, None, true) && (ip.None? || LazySafe(m))
    ensures Holds(m, q, ip) == v
  {
    EveryOutcomeIsPossible(m, q, ip);
  }

  lemma SettledVerdict(r: Option<bool>, m: Matcher, q: Query, ip: Option<Ip>)
    requires Verdict(r, m, q, ip, false)
    ensures r == Some(Holds(m, q, ip))
  {
    SettledIsTwoValued(m, q, ip, true);
    SettledIsTwoValued(m, q, ip, false);
  }

  // ---------- the loop over the rules ----------

  datatype Rule = Rule(matcher: Matcher, target: string, noResolve: bool)

  /** The rule is the first to need the address: its verdict is open without it. */
  predicate NeedsAddress(rule: Rule, q: Query) {
    && !rule.noResolve
    && CanBe(rule.matcher, q, None, true, true)
    && CanBe(rule.matcher, q, None, true, false)
  }

  function FirstNeed(rules: seq<Rule>, q: Query, i: nat): (k: nat)
    requires i <= |rules|
    ensures i <= k <= |rules|
    ensures forall j :: i <= j < k ==> !NeedsAddress(rules[j], q)
    ensures k < |rules| ==> NeedsAddress(rules[k], q)
    decreases |rules| - i
  {
    if i == |rules| || NeedsAddress(rules[i], q) then i else FirstNeed(rules, q, i + 1)
  }

  /** The first rule that holds, from i on, when the address is known from `known` on. */
  function FirstMatch(rules: seq<Rule>, q: Query, known: nat, ip: Option<Ip>, i: nat): (k: nat)
    requires i <= |rules|
    ensures i <= k <= |rules|
    ensures forall j :: i <= j < k ==> !Holds(rules[j].matcher, q, if j < known then None else ip)
    ensures k < |rules| ==> Holds(rules[k].matcher, q, if k < known then None else ip)
    decreases |rules| - i
  {
    if i == |rules| || Holds(rules[i].matcher, q, if i < known then None else ip) then i
    else FirstMatch(rules, q, known, ip, i + 1)
  }

  lemma FirstMatchIs(rules: seq<Rule>, q: Query, known: nat, ip: Option<Ip>, k: nat)
    requires k <= |rules|
    requires forall j :: 0 <= j < k ==> !Holds(rules[j].matcher, q, if j < known then None else ip)
    requires k < |rules| ==> Holds(rules[k].matcher, q, if k < known then None else ip)
    ensures FirstMatch(rules, q, known, ip, 0) == k
  {
    var found := FirstMatch(rules, q, known, ip, 0);
    assert found < |rules| ==> Holds(rules[found].matcher, q, if found < known then None else ip);
  }

  /** One rule: what the loop concludes is the two-valued meaning on the address it has by then. */
  method RuleMatches(rule: Rule, q: Query, ip: Option<Ip>, resolved: bool, lookup: Option<Ip>)
    returns (matched: bool, asked: bool)
    requires Valid(rule.matcher) && q.host == Domains.Normalised(q.host) && (!resolved ==> ip.None?)
    ensures asked <==> !resolved && NeedsAddress(rule, q)
    ensures matched == Holds(rule.matcher, q, if asked then lookup else ip)
  {
    var first := Evaluate(rule.matcher, q, ip, !rule.noResolve && !resolved);
    asked := first.None? && !rule.noResolve && !resolved;
    if first.Some? {
      matched := first.value;
      if !rule.noResolve && !resolved {
        EarlyVerdictIsFinal(rule.matcher, q, None, first.value);
      } else {
        SettledVerdict(first, rule.matcher, q, ip);
      }
    } else {
      if rule.noResolve || resolved {
        SettledVerdict(first, rule.matcher, q, ip);
      }
      var again := Evaluate(rule.matcher, q.(host := Domains.Normalised(q.host)), if asked then lookup else ip, false);
      SettledVerdict(again, rule.matcher, q, if asked then lookup else ip);
      matched := again == Some(true);
    }
  }

  /** A rule that may be decided before the address is known without anyone noticing. */
  predicate RuleSafe(rule: Rule) {
    LazySafe(rule.matcher) && (rule.noResolve ==> !HasAddress(rule.matcher))
  }

  /** A rule that does not need the address means the same with and without it. */
  lemma EarlyRuleIsFinal(rule: Rule, q: Query, ip: Option<Ip>)
    requires RuleSafe(rule) && !NeedsAddress(rule, q)
    ensures Holds(rule.matcher, q, None) == Holds(rule.matcher, q, ip)
  {
    if rule.noResolve {
      AddressFree(rule.matcher, q, None, true, true);
      AddressFree(rule.matcher, q, ip, true, true);
    } else {
      EveryOutcomeIsPossible(rule.matcher, q, None);
      EveryOutcomeIsPossible(rule.matcher, q, ip);
    }
  }

  /** No earlier rule holds, with the address or without it. */
  predicate Reached(rules: seq<Rule>, q: Query, ip: Option<Ip>, j: nat)
    requires j <= |rules|
  {
    forall i :: 0 <= i < j ==> !Holds(rules[i].matcher, q, None) && !Holds(rules[i].matcher, q, ip)
  }

  /** The rule means the same with and without the address. */
  predicate Indifferent(rule: Rule, q: Query, ip: Option<Ip>) {
    Holds(rule.matcher, q, None) == Holds(rule.matcher, q, ip)
  }

  /** Every rule that can be reached before the lookup means the same with the address. */
  predicate AgreesEarly(rules: seq<Rule>, q: Query, ip: Option<Ip>) {
    forall j :: 0 <= j < FirstNeed(rules, q, 0) && Reached(rules, q, ip, j) ==> Indifferent(rules[j], q, ip)
  }

  /** The first rule at which the two choices could part. */
  lemma DisagreementParts(rules: seq<Rule>, q: Query, ip: Option<Ip>, j: nat)
    requires j < FirstNeed(rules, q, 0) && Reached(rules, q, ip, j) && !Indifferent(rules[j], q, ip)
    ensures FirstMatch(rules, q, FirstNeed(rules, q, 0), ip, 0) != FirstMatch(rules, q, 0, ip, 0)
  {
    var need := FirstNeed(rules, q, 0);
    if Holds(rules[j].matcher, q, None) {
      FirstMatchIs(rules, q, need, ip, j);
    } else {
      FirstMatchIs(rules, q, 0, ip, j);
    }
  }

  lemma AgreementJoins(rules: seq<Rule>, q: Query, ip: Option<Ip>)
    requires AgreesEarly(rules, q, ip)
    ensures FirstMatch(rules, q, FirstNeed(rules, q, 0), ip, 0) == FirstMatch(rules, q, 0, ip, 0)
  {
    var need := FirstNeed(rules, q, 0);
    var k := FirstMatch(rules, q, 0, ip, 0);
    EarlierAreSilent(rules, q, ip, Min(k, need));
    assert k < need ==> Indifferent(rules[k], q, ip);
    hide AgreesEarly, Holds;
    FirstMatchIs(rules, q, need, ip, k);
  }

  lemma {:induction false} EarlierAreSilent(rules: seq<Rule>, q: Query, ip: Option<Ip>, k: nat)
    requires AgreesEarly(rules, q, ip) && k <= FirstMatch(rules, q, 0, ip, 0)
    ensures forall j :: 0 <= j < k ==> !Holds(rules[j].matcher, q, ip)
    ensures k <= FirstNeed(rules, q, 0) ==> Reached(rules, q, ip, k)
  {
    if k > 0 {
      EarlierAreSilent(rules, q, ip, k - 1);
      assert k <= FirstNeed(rules, q, 0) ==> Indifferent(rules[k - 1], q, ip);
    }
  }

  /**
  Lazy lookups pick the rule that a reference picks which resolves before it evaluates anything,
  exactly if every rule that can be reached before the lookup means the same with the address;
  and a rule that does not has an IP condition under a no-resolve.
  */
  lemma LazyIsEagerIff(rules: seq<Rule>, q: Query, ip: Option<Ip>)
    ensures FirstMatch(rules, q, FirstNeed(rules, q, 0), ip, 0) == FirstMatch(rules, q, 0, ip, 0)
            <==> AgreesEarly(rules, q, ip)
    ensures forall j :: 0 <= j < FirstNeed(rules, q, 0) && !Indifferent(rules[j], q, ip) ==> !RuleSafe(rules[j])
  {
    if AgreesEarly(rules, q, ip) {
      AgreementJoins(rules, q, ip);
    } else {
      var j :| 0 <= j < FirstNeed(rules, q, 0) && Reached(rules, q, ip, j) && !Indifferent(rules[j], q, ip);
      DisagreementParts(rules, q, ip, j);
    }
    forall j | 0 <= j < FirstNeed(rules, q, 0) && RuleSafe(rules[j]) ensures Indifferent(rules[j], q, ip) {
      EarlyRuleIsFinal(rules[j], q, ip);
    }
  }

  /** So they agree on every list without no-resolve, for every query and every lookup outcome. */
  lemma LazyIsEager(rules: seq<Rule>, q: Query, ip: Option<Ip>)
    requires forall rule :: rule in rules ==> RuleSafe(rule)
    ensures FirstMatch(rules, q, FirstNeed(rules, q, 0), ip, 0) == FirstMatch(rules, q, 0, ip, 0)
  {
    LazyIsEagerIff(rules, q, ip);
    assert forall j :: 0 <= j < |rules| ==> rules[j] in rules;
  }

  /** With no-resolve on a network they differ, for every network and every address in it. */
  lemma NoResolveIsNotEager(net: IpNet, ip: Ip, target: string, q: Query)
    requires Contains(net, ip)
    ensures !AgreesEarly([Rule(Address(Net(net)), target, true)], q, Some(ip))
  {
    var rules := [Rule(Address(Net(net)), target, true)];
    assert !NeedsAddress(rules[0], q);
    assert Reached(rules, q, Some(ip), 0) && !Indifferent(rules[0], q, Some(ip));
  }

  /**
  The rule loop of `route_decision`. `lookup` is what the resolver answers if it is asked, `None`
  on failure; the result is the index of the rule, or the number of rules for the fallback.
  */
  method ChooseRule(rules: seq<Rule>, host: string, targetIp: Option<Ip>, port: u16, network: string, lookup: Option<Ip>)
    returns (chosen: nat, lookups: nat)
    requires forall rule :: rule in rules ==> Valid(rule.matcher)
    ensures var q := Query(Domains.Normalised(host), port, network);
            var need := if targetIp.Some? then 0 else FirstNeed(rules, q, 0);
            && chosen == FirstMatch(rules, q, need, if targetIp.Some? then targetIp else lookup, 0)
            && lookups == (if targetIp.None? && need < |rules| && need <= chosen then 1 else 0)
    ensures targetIp.None? ==>
              (chosen == FirstMatch(rules, Query(Domains.Normalised(host), port, network), 0, lookup, 0)
               <==> AgreesEarly(rules, Query(Domains.Normalised(host), port, network), lookup))
    ensures (forall rule :: rule in rules ==> RuleSafe(rule)) ==>
              chosen == FirstMatch(rules, Query(Domains.Normalised(host), port, network), 0,
                                   if targetIp.Some? then targetIp else lookup, 0)
  {
    var q := Query(Domains.Normalised(host), port, network);
    Domains.NormalisedTwice(host);
    chosen, lookups := RuleLoop(rules, q, targetIp, lookup);
    if forall rule :: rule in rules ==> RuleSafe(rule) { LazyIsEager(rules, q, if targetIp.Some? then targetIp else lookup); }
    LazyIsEagerIff(rules, q, lookup);
    hide *;
  }

  /** The loop on a normalised query. */
  method RuleLoop(rules: seq<Rule>, q: Query, targetIp: Option<Ip>, lookup: Option<Ip>) returns (chosen: nat, lookups: nat)
    requires (forall rule :: rule in rules ==> Valid(rule.matcher)) && q.host == Domains.Normalised(q.host)
    ensures var need := if targetIp.Some? then 0 else FirstNeed(rules, q, 0);
            && chosen == FirstMatch(rules, q, need, if targetIp.Some? then targetIp else lookup, 0)
            && lookups == (if targetIp.None? && need < |rules| && need <= chosen then 1 else 0)
  {
    hide *;
    ghost var need := if targetIp.Some? then 0 else FirstNeed(rules, q, 0);
    ghost var address := if targetIp.Some? then targetIp else lookup;
    var ip, resolved := targetIp, targetIp.Some?;
    lookups := 0;
    var i := 0;
    while i < |rules|
      invariant 0 <= i <= |rules|
      invariant resolved <==> targetIp.Some? || need < i
      invariant ip == if resolved then address else None
      invariant lookups == if targetIp.None? && resolved then 1 else 0
      invariant forall j :: 0 <= j < i ==> !Holds(rules[j].matcher, q, if j < need then None else address)
    {
      assert rules[i] in rules;
      var matched, asked := RuleMatches(rules[i], q, ip, resolved, lookup);
      if asked {
        ip, resolved, lookups := lookup, true, lookups + 1;
      }
      if matched {
        FirstMatchIs(rules, q, need, address, i);
        return i, lookups;
      }
      i := i + 1;
    }
    FirstMatchIs(rules, q, need, address, i);
    chosen := i;
  }
}
