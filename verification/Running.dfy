/** What the host's network set-up means while the hotspot runs. */
module Running {
  import opened Common
  import opened Network
  import opened Hotspot

  /** The insertions into the forwarding chain touch nothing else. */
  lemma {:induction false} ForwardsTouchNothingElse(s: Net, plan: seq<Change>, h: nat, n: nat)
    requires h + n <= |plan| && forall i :: h <= i < h + n ==> Forwarding(plan[i])
    ensures Applied(s, plan, h + n) == Applied(s, plan, h).(forward4 := Applied(s, plan, h + n).forward4)
  {
    if n > 0 { ForwardsTouchNothingElse(s, plan, h, n - 1); }
  }

  /** A plan's shape: the changes before the forwarding rules, those rules, and the masquerading. */
  lemma PlanShape(c: Config, iface: string, managed: string, proxied: bool) returns (h: nat)
    ensures var plan, first := Plan(c, iface, managed, proxied), if c.bypass && proxied then 3 else 2;
            && h == first + 2 && h < |plan| - 1
            && plan[0].forward == SetManaged("no") && plan[1].forward == AddressAdd(c.address)
            && (first == 3 ==> plan[2].forward == ProxyInsert)
            && plan[first].forward == RuleAdd(if c.bypass then ClientRule(iface) else ReplyRule(c))
            && plan[first + 1].forward == (if c.bypass then RuleAdd(ReplyRule(c))
                                           else ChainInsert(Forward6, Ipv6Block(iface)))
            && (forall i :: h <= i < |plan| - 1 ==> Forwarding(plan[i]))
            && plan[|plan| - 1].forward == ChainInsert(Postrouting4, Masq(c))
  {
    var plan, specs := Plan(c, iface, managed, proxied), Forwards(c, iface);
    h := |plan| - |specs| - 1;
    forall i | h <= i < |plan| - 1 ensures Forwarding(plan[i]) {
      assert plan[i] == Insertions(specs)[i - h];
    }
    hide Forwards;
  }

  /** Everything but the forwarding chain of IPv4, once the hotspot runs. */
  lemma StartedState(s: Net, c: Config, iface: string, managed: string, proxied: bool)
    ensures var plan := Plan(c, iface, managed, proxied);
            var t := Applied(s, plan, |plan|);
            && t.managed == "no" && t.addresses == s.addresses + [c.address]
            && t.proxy == (if c.bypass && proxied then [EXCEPTION] + s.proxy else s.proxy)
            && t.rules == InsertRule(if c.bypass then InsertRule(s.rules, ClientRule(iface)) else s.rules, ReplyRule(c))
            && t.forward6 == (if c.bypass then s.forward6 else [Ipv6Block(iface)] + s.forward6)
            && t.postrouting4 == [Masq(c)] + s.postrouting4
  {
    var plan := Plan(c, iface, managed, proxied);
    var h := PlanShape(c, iface, managed, proxied);
    ForwardsTouchNothingElse(s, plan, h, |plan| - 1 - h);
    HostPart(s, plan, c, proxied);
    hide Plan, InsertRule, ClientRule, ReplyRule, Ipv6Block, Masq, Forwarding, Apply, Applied;
    RulesPart(s, plan, c, iface, h);
    LastPart(s, plan, c);
  }

  lemma RulesPart(s: Net, plan: seq<Change>, c: Config, iface: string, h: nat)
    requires 2 <= h <= |plan|
    requires plan[h - 2].forward == RuleAdd(if c.bypass then ClientRule(iface) else ReplyRule(c))
    requires plan[h - 1].forward ==
             if c.bypass then RuleAdd(ReplyRule(c)) else ChainInsert(Forward6, Ipv6Block(iface))
    ensures var u := Applied(s, plan, h - 2);
            Applied(s, plan, h) ==
            u.(rules := InsertRule(if c.bypass then InsertRule(u.rules, ClientRule(iface)) else u.rules, ReplyRule(c)),
               forward6 := if c.bypass then u.forward6 else [Ipv6Block(iface)] + u.forward6)
  {
    hide InsertRule, ClientRule, ReplyRule, Ipv6Block;
    assert Applied(s, plan, h - 1) == Apply(plan[h - 2].forward, Applied(s, plan, h - 2));
  }

  lemma LastPart(s: Net, plan: seq<Change>, c: Config)
    requires plan != [] && plan[|plan| - 1].forward == ChainInsert(Postrouting4, Masq(c))
    ensures var u := Applied(s, plan, |plan| - 1);
            Applied(s, plan, |plan|) == u.(postrouting4 := [Masq(c)] + u.postrouting4)
  {
    hide Masq;
  }

  lemma HostPart(s: Net, plan: seq<Change>, c: Config, proxied: bool)
    requires |plan| > 3 && plan[0].forward == SetManaged("no") && plan[1].forward == AddressAdd(c.address)
    requires c.bypass && proxied ==> plan[2].forward == ProxyInsert
    ensures Applied(s, plan, if c.bypass && proxied then 3 else 2) ==
            s.(managed := "no", addresses := s.addresses + [c.address],
               proxy := if c.bypass && proxied then [EXCEPTION] + s.proxy else s.proxy)
  {
    assert Applied(s, plan, 0) == s && Applied(s, plan, 1) == s.(managed := "no");
    assert Applied(s, plan, 2) == s.(managed := "no", addresses := s.addresses + [c.address]);
  }

  /** Without the bypass no IPv6 packet of a client is forwarded; every other packet fares as before. */
  lemma Ipv6Means(s: Net, c: Config, iface: string, managed: string, proxied: bool, p: Packet)
    ensures var plan := Plan(c, iface, managed, proxied);
            Verdict(Applied(s, plan, |plan|).forward6, p) ==
            if !c.bypass && p.inIf == iface then Some(Reject) else Verdict(s.forward6, p)
  {
    StartedState(s, c, iface, managed, proxied);
    hide Plan, Applied;
    assert ([Ipv6Block(iface)] + s.forward6)[1..] == s.forward6;
  }

  /** Packets from the hotspot's network leave the uplink under its address; every other packet fares as before. */
  lemma MasqueradeMeans(s: Net, c: Config, iface: string, managed: string, proxied: bool, p: Packet)
    ensures var plan := Plan(c, iface, managed, proxied);
            Verdict(Applied(s, plan, |plan|).postrouting4, p) ==
            if p.outIf == c.uplink && c.subnet.lo <= p.src <= c.subnet.hi then Some(Masquerade)
            else Verdict(s.postrouting4, p)
  {
    StartedState(s, c, iface, managed, proxied);
    hide Plan, Applied;
    assert ([Masq(c)] + s.postrouting4)[1..] == s.postrouting4;
  }

  // ---------------------------------------------------------------- policy routing

  predicate Applies(r: Rule, inIf: string, dst: nat) {
    (r.fromIf.Some? ==> inIf == r.fromIf.value) && (r.to.Some? ==> In(dst, r.to.value))
  }

  /** The first rule that applies to a packet says which table routes it. */
  function FirstRule(rules: seq<Rule>, inIf: string, dst: nat): (r: Option<Rule>)
    ensures r.Some? ==> r.value in rules
  {
    if rules == [] then None
    else if Applies(rules[0], inIf, dst) then Some(rules[0])
    else FirstRule(rules[1..], inIf, dst)
  }

  /** The kernel keeps the rules by priority. */
  predicate ByPriority(rules: seq<Rule>) {
    forall i, j :: 0 <= i < j < |rules| ==> rules[i].priority <= rules[j].priority
  }

  predicate Precedes(prior: Option<Rule>, priority: nat) {
    prior.Some? && prior.value.priority <= priority
  }

  lemma {:induction false} InsertKeepsOrder(rules: seq<Rule>, r: Rule)
    requires ByPriority(rules)
    ensures ByPriority(InsertRule(rules, r))
  {
    if rules != [] && rules[0].priority <= r.priority {
      var rest := InsertRule(rules[1..], r);
      InsertKeepsOrder(rules[1..], r);
      InsertedMembers(rules[1..], r);
      forall i | 0 <= i < |rest| ensures rules[0].priority <= rest[i].priority {
        assert rest[i] in rest;
        assert rest[i] == r || rest[i] in rules[1..];
      }
      hide InsertRule;
    }
  }

  lemma FirstOf(r: Rule, rules: seq<Rule>, inIf: string, dst: nat)
    ensures FirstRule([r] + rules, inIf, dst) == if Applies(r, inIf, dst) then Some(r) else FirstRule(rules, inIf, dst)
  {
    assert ([r] + rules)[1..] == rules;
  }

  lemma LowestFirst(rules: seq<Rule>, inIf: string, dst: nat)
    requires ByPriority(rules) && rules != [] && FirstRule(rules, inIf, dst).Some?
    ensures rules[0].priority <= FirstRule(rules, inIf, dst).value.priority
  {
    var i :| 0 <= i < |rules| && rules[i] == FirstRule(rules, inIf, dst).value;
    hide FirstRule;
  }

  lemma {:induction false} InsertedMeans(rules: seq<Rule>, r: Rule, inIf: string, dst: nat)
    requires ByPriority(rules)
    ensures var prior := FirstRule(rules, inIf, dst);
            FirstRule(InsertRule(rules, r), inIf, dst) ==
            if Applies(r, inIf, dst) && !Precedes(prior, r.priority) then Some(r) else prior
  {
    hide Applies;
    if rules == [] || rules[0].priority > r.priority {
      if FirstRule(rules, inIf, dst).Some? { LowestFirst(rules, inIf, dst); }
      FirstOf(r, rules, inIf, dst);
      hide FirstRule, ByPriority;
    } else {
      InsertedMeans(rules[1..], r, inIf, dst);
      FirstOf(rules[0], InsertRule(rules[1..], r), inIf, dst);
      assert FirstRule(rules, inIf, dst) ==
             if Applies(rules[0], inIf, dst) then Some(rules[0]) else FirstRule(rules[1..], inIf, dst);
      hide FirstRule, ByPriority;
    }
  }

  /**
   * Which rule routes a packet while the hotspot runs: with the bypass the clients' packets go by the main
   * table, and those for the clients do always, unless a rule of the same or a higher precedence applies.
   */
  lemma RoutingMeans(s: Net, c: Config, iface: string, managed: string, proxied: bool, inIf: string, dst: nat)
    requires ByPriority(s.rules)
    ensures var plan := Plan(c, iface, managed, proxied);
            var prior := FirstRule(s.rules, inIf, dst);
            FirstRule(Applied(s, plan, |plan|).rules, inIf, dst) ==
            if c.bypass && inIf == iface && !Precedes(prior, 8000) then Some(Rule(8000, Some(iface), None, "main"))
            else if c.subnet.lo <= dst <= c.subnet.hi && !Precedes(prior, 8001) then
              Some(Rule(8001, None, Some(c.subnet), "main"))
            else prior
  {
    StartedState(s, c, iface, managed, proxied);
    hide Plan, Applied, InsertRule, FirstRule, ByPriority;
    var rules := if c.bypass then InsertRule(s.rules, ClientRule(iface)) else s.rules;
    InsertKeepsOrder(s.rules, ClientRule(iface));
    InsertedMeans(s.rules, ClientRule(iface), inIf, dst);
    InsertedMeans(rules, ReplyRule(c), inIf, dst);
  }
}
