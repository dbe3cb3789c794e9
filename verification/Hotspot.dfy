/**
 * Start-up and teardown of the hotspot: every change records its undo command before it is made,
 * and whatever happens, the recorded commands run in reverse.
 */
module Hotspot {
  import opened Common
  import opened Network

  datatype ProxyRule = ProxyRule(text: string, tagged: bool)

  /** The parts of the host's network set-up that the hotspot touches. */
  datatype Net = Net(managed: string, addresses: seq<string>, rules: seq<Rule>, proxy: seq<ProxyRule>,
                     forward4: seq<Spec>, postrouting4: seq<Spec>, forward6: seq<Spec>)

  const EXCEPTION: ProxyRule := ProxyRule("counter return", true)

  function RemoveFirst<T(==)>(s: seq<T>, x: T): seq<T> {
    if s == [] then [] else if s[0] == x then s[1..] else [s[0]] + RemoveFirst(s[1..], x)
  }

  /** Policy rules are kept by priority, a new one behind its equals. */
  function InsertRule(rules: seq<Rule>, r: Rule): seq<Rule> {
    if rules == [] || rules[0].priority > r.priority then [r] + rules else [rules[0]] + InsertRule(rules[1..], r)
  }

  function Untagged(proxy: seq<ProxyRule>): seq<ProxyRule> {
    if proxy == [] then [] else (if proxy[0].tagged then [] else [proxy[0]]) + Untagged(proxy[1..])
  }

  function OnChain(s: Net, chain: Chain): seq<Spec> {
    match chain
    case Forward4 => s.forward4
    case Postrouting4 => s.postrouting4
    case Forward6 => s.forward6
  }

  function WithChain(s: Net, chain: Chain, specs: seq<Spec>): Net {
    match chain
    case Forward4 => s.(forward4 := specs)
    case Postrouting4 => s.(postrouting4 := specs)
    case Forward6 => s.(forward6 := specs)
  }

  /** A command that takes effect; a deletion that finds nothing fails and changes nothing. */
  function Apply(cmd: Cmd, s: Net): Net {
    match cmd
    case SetManaged(m) => s.(managed := m)
    case AddressAdd(a) => s.(addresses := s.addresses + [a])
    case AddressDel(a) => s.(addresses := RemoveFirst(s.addresses, a))
    case RuleAdd(r) => s.(rules := InsertRule(s.rules, r))
    case RuleDel(r) => s.(rules := RemoveFirst(s.rules, r))
    case ProxyInsert => s.(proxy := [EXCEPTION] + s.proxy)
    case ProxyRemoveTagged => s.(proxy := Untagged(s.proxy))
    case ChainInsert(chain, spec) => WithChain(s, chain, [spec] + OnChain(s, chain))
    case ChainDelete(chain, spec) => WithChain(s, chain, RemoveFirst(OnChain(s, chain), spec))
  }

  /** The changes of one start, given what was read about the interface and the proxy. */
  function Plan(c: Config, iface: string, managed: string, proxied: bool): seq<Change> {
    [Change(SetManaged("no"), SetManaged(managed)), Change(AddressAdd(c.address), AddressDel(c.address))]
    + (if c.bypass && proxied then [Change(ProxyInsert, ProxyRemoveTagged)] else [])
    + Changes(c, iface)
  }

  /**
   * How a start ends: between two changes (also after the last), or within one whose command
   * failed without effect, or took effect although it was reported as failed.
   */
  datatype Ending = Between(k: nat) | Clean(k: nat) | Dirty(k: nat)

  predicate Possible(e: Ending, plan: seq<Change>) {
    if e.Between? then e.k <= |plan| else e.k < |plan|
  }

  /** The number of changes whose undo command was recorded. */
  function Recorded(e: Ending): nat {
    if e.Between? then e.k else e.k + 1
  }

  function Applied(s: Net, plan: seq<Change>, k: nat): Net
    requires k <= |plan|
  {
    if k == 0 then s else Apply(plan[k - 1].forward, Applied(s, plan, k - 1))
  }

  function Undone(s: Net, plan: seq<Change>, k: nat): Net
    requires k <= |plan|
    decreases k
  {
    if k == 0 then s else Undone(Apply(plan[k - 1].backward, s), plan, k - 1)
  }

  function AtEnd(s: Net, plan: seq<Change>, e: Ending): Net
    requires Possible(e, plan)
  {
    Applied(s, plan, if e.Dirty? then e.k + 1 else e.k)
  }

  function Final(s: Net, plan: seq<Change>, e: Ending): Net
    requires Possible(e, plan)
  {
    Undone(AtEnd(s, plan, e), plan, Recorded(e))
  }

  // ---------------------------------------------------------------- the worker

  class Worker {
    var net: Net
    var undo: seq<Cmd>

    constructor (net: Net)
      ensures this.net == net && undo == []
    {
      this.net := net;
      undo := [];
    }

    /** Records before execution. */
    method Make(change: Change, effect: bool)
      modifies this
      ensures undo == old(undo) + [change.backward]
      ensures net == if effect then Apply(change.forward, old(net)) else old(net)
    {
      undo := undo + [change.backward];
      if effect {
        net := Apply(change.forward, net);
      }
    }

    /** The `finally` block. */
    method UndoAll(ghost plan: seq<Change>)
      requires |undo| <= |plan| && forall k :: 0 <= k < |undo| ==> undo[k] == plan[k].backward
      modifies this`net
      ensures net == Undone(old(net), plan, |undo|)
    {
      var i := |undo|;
      while i > 0
        invariant 0 <= i <= |undo| && Undone(net, plan, i) == Undone(old(net), plan, |undo|)
      {
        i := i - 1;
        net := Apply(undo[i], net);
      }
    }

    /** `run`, ending as told. */
    method Run(plan: seq<Change>, e: Ending)
      requires undo == [] && Possible(e, plan)
      modifies this
      ensures net == Final(old(net), plan, e)
    {
      ghost var start := net;
      var k := 0;
      while k < e.k
        invariant k <= e.k && |undo| == k && forall j :: 0 <= j < k ==> undo[j] == plan[j].backward
        invariant net == Applied(start, plan, k)
      {
        Make(plan[k], true);
        k := k + 1;
      }
      if !e.Between? {
        Make(plan[k], e.Dirty?);
      }
      assert net == AtEnd(start, plan, e) && |undo| == Recorded(e);
      UndoAll(plan);
    }
  }

  // ---------------------------------------------------------------- undoing one change

  datatype Item = Managed | Address(address: string) | Routed(rule: Rule) | Proxy | OnFilter(chain: Chain, spec: Spec)

  /** A command with the one that takes it back. */
  predicate Paired(ch: Change) {
    match ch.forward
    case SetManaged(_) => ch.backward.SetManaged?
    case AddressAdd(a) => ch.backward == AddressDel(a)
    case RuleAdd(r) => ch.backward == RuleDel(r)
    case ProxyInsert => ch.backward == ProxyRemoveTagged
    case ChainInsert(chain, spec) => ch.backward == ChainDelete(chain, spec)
    case _ => false
  }

  /** What a change is about. */
  function ItemOf(ch: Change): Item
    requires Paired(ch)
  {
    match ch.forward
    case SetManaged(_) => Managed
    case AddressAdd(a) => Address(a)
    case RuleAdd(r) => Routed(r)
    case ProxyInsert => Proxy
    case ChainInsert(chain, spec) => OnFilter(chain, spec)
  }

  predicate NoTag(proxy: seq<ProxyRule>) {
    forall k :: 0 <= k < |proxy| ==> !proxy[k].tagged
  }

  /** The state before a change is one its undo command leads back to. */
  predicate Undoable(ch: Change, s: Net)
    requires Paired(ch)
  {
    match ItemOf(ch)
    case Managed => ch.backward.managed == s.managed
    case Address(a) => a !in s.addresses
    case Routed(r) => r !in s.rules
    case Proxy => NoTag(s.proxy)
    case OnFilter(_, _) => true
  }

  lemma {:induction false} RemoveAbsent<T>(s: seq<T>, x: T)
    requires x !in s
    ensures RemoveFirst(s, x) == s
  {
    if s != [] { RemoveAbsent(s[1..], x); }
  }

  lemma {:induction false} RemoveLast<T>(s: seq<T>, x: T)
    requires x !in s
    ensures RemoveFirst(s + [x], x) == s
  {
    if s != [] {
      assert (s + [x])[1..] == s[1..] + [x];
      RemoveLast(s[1..], x);
    }
  }

  lemma {:induction false} RemoveInserted(rules: seq<Rule>, r: Rule)
    requires r !in rules
    ensures RemoveFirst(InsertRule(rules, r), r) == rules
  {
    if !(rules == [] || rules[0].priority > r.priority) {
      RemoveInserted(rules[1..], r);
    }
  }

  lemma {:induction false} InsertedMembers(rules: seq<Rule>, r: Rule)
    ensures forall x :: x in InsertRule(rules, r) <==> x == r || x in rules
  {
    if !(rules == [] || rules[0].priority > r.priority) {
      InsertedMembers(rules[1..], r);
      assert rules == [rules[0]] + rules[1..];
    }
  }

  lemma {:induction false} UntaggedIff(proxy: seq<ProxyRule>)
    ensures |Untagged(proxy)| <= |proxy| && (Untagged(proxy) == proxy <==> NoTag(proxy))
  {
    if proxy != [] {
      UntaggedIff(proxy[1..]);
      if NoTag(proxy) {
        assert Untagged(proxy) == [proxy[0]] + proxy[1..];
      } else if !proxy[0].tagged {
        assert !NoTag(proxy[1..]);
        assert Untagged(proxy)[1..] == Untagged(proxy[1..]);
      }
    }
  }

  lemma ReverseStep(ch: Change, s: Net)
    requires Paired(ch) && Undoable(ch, s)
    ensures Apply(ch.backward, Apply(ch.forward, s)) == s
  {
    match ItemOf(ch)
    case Managed =>
    case Address(a) => RemoveLast(s.addresses, a);
    case Routed(r) => RemoveInserted(s.rules, r);
    case Proxy => UntaggedIff(s.proxy); assert ([EXCEPTION] + s.proxy)[1..] == s.proxy;
    case OnFilter(chain, spec) => assert ([spec] + OnChain(s, chain))[1..] == OnChain(s, chain);
  }

  /** A change keeps the undo of a change about something else possible. */
  lemma ForwardKeeps(a: Change, b: Change, s: Net)
    requires Paired(a) && Paired(b) && ItemOf(a) != ItemOf(b) && Undoable(b, s)
    ensures Undoable(b, Apply(a.forward, s))
  {
    match a.forward
    case RuleAdd(r) => InsertedMembers(s.rules, r);
    case _ =>
  }

  // ---------------------------------------------------------------- undoing a whole start

  /** Each change about something else. */
  ghost predicate Independent(plan: seq<Change>) {
    && (forall k :: 0 <= k < |plan| ==> Paired(plan[k]))
    && (forall j, k :: 0 <= j < k < |plan| ==> ItemOf(plan[j]) != ItemOf(plan[k]))
  }

  ghost predicate UndoableUpTo(s: Net, plan: seq<Change>, m: nat)
    requires m <= |plan| && Independent(plan)
  {
    forall k :: 0 <= k < m ==> Undoable(plan[k], s)
  }

  lemma {:induction false} StaysUndoable(s: Net, plan: seq<Change>, j: nat, k: nat)
    requires Independent(plan) && j <= k < |plan| && Undoable(plan[k], s)
    ensures Undoable(plan[k], Applied(s, plan, j))
  {
    if j > 0 {
      StaysUndoable(s, plan, j - 1, k);
      ForwardKeeps(plan[j - 1], plan[k], Applied(s, plan, j - 1));
    }
  }

  lemma {:induction false} UndoneApplied(s: Net, plan: seq<Change>, k: nat)
    requires Independent(plan) && k <= |plan| && UndoableUpTo(s, plan, k)
    ensures Undone(Applied(s, plan, k), plan, k) == s
  {
    if k > 0 {
      StaysUndoable(s, plan, k - 1, k - 1);
      ReverseStep(plan[k - 1], Applied(s, plan, k - 1));
      UndoneApplied(s, plan, k - 1);
    }
  }

  /** Deleting one rule commutes with inserting another. */
  lemma DeleteCommutes(a: Change, b: Change, s: Net)
    requires Paired(a) && Paired(b) && ItemOf(a) != ItemOf(b) && ItemOf(b).OnFilter?
    ensures Apply(b.backward, Apply(a.forward, s)) == Apply(a.forward, Apply(b.backward, s))
  {
    if a.forward.ChainInsert? && a.forward.chain == b.forward.chain {
      var c := OnChain(s, a.forward.chain);
      assert ([a.forward.spec] + c)[1..] == c;
    }
  }

  lemma {:induction false} DeleteFirst(s: Net, plan: seq<Change>, j: nat, k: nat)
    requires Independent(plan) && j <= k < |plan| && ItemOf(plan[k]).OnFilter?
    ensures Apply(plan[k].backward, Applied(s, plan, j)) == Applied(Apply(plan[k].backward, s), plan, j)
  {
    if j > 0 {
      DeleteFirst(s, plan, j - 1, k);
      DeleteCommutes(plan[j - 1], plan[k], Applied(s, plan, j - 1));
    }
  }

  /** The undo command of a change that was never made leaves everything but the packet filter alone. */
  lemma IdleUndo(ch: Change, s: Net)
    requires Paired(ch) && Undoable(ch, s) && !ItemOf(ch).OnFilter?
    ensures Apply(ch.backward, s) == s
  {
    match ItemOf(ch)
    case Managed =>
    case Address(a) => RemoveAbsent(s.addresses, a);
    case Routed(r) => RemoveAbsent(s.rules, r);
    case Proxy => UntaggedIff(s.proxy);
  }

  /** After a failure without effect, all that remains is what the failed change's own undo did. */
  lemma CleanFailure(s: Net, plan: seq<Change>, k: nat)
    requires Independent(plan) && k < |plan| && UndoableUpTo(s, plan, k + 1)
    ensures Final(s, plan, Clean(k)) == Apply(plan[k].backward, s)
  {
    var t := Apply(plan[k].backward, s);
    if ItemOf(plan[k]).OnFilter? {
      DeleteFirst(s, plan, k, k);
      forall j | 0 <= j < k ensures Undoable(plan[j], t) {
        assert Undoable(plan[j], s);
      }
      UndoneApplied(t, plan, k);
    } else {
      StaysUndoable(s, plan, k, k);
      IdleUndo(plan[k], Applied(s, plan, k));
      IdleUndo(plan[k], s);
      UndoneApplied(s, plan, k);
    }
  }

  // ---------------------------------------------------------------- exactly when

  lemma {:induction false} RemoveShrinks<T>(s: seq<T>, x: T)
    requires x in s
    ensures |RemoveFirst(s, x)| == |s| - 1
  {
    if s[0] != x { RemoveShrinks(s[1..], x); }
  }

  lemma DeleteIdleIff(s: Net, chain: Chain, spec: Spec)
    ensures Apply(ChainDelete(chain, spec), s) == s <==> spec !in OnChain(s, chain)
  {
    if spec in OnChain(s, chain) {
      RemoveShrinks(OnChain(s, chain), spec);
    } else {
      RemoveAbsent(OnChain(s, chain), spec);
    }
  }

  predicate HasProxy(plan: seq<Change>, m: nat)
    requires m <= |plan|
  {
    exists j :: 0 <= j < m && plan[j].forward == ProxyInsert
  }

  lemma {:induction false} UntaggedTwice(proxy: seq<ProxyRule>)
    ensures Untagged(Untagged(proxy)) == Untagged(proxy)
  {
    if proxy != [] {
      UntaggedTwice(proxy[1..]);
      if !proxy[0].tagged {
        assert Untagged(proxy)[1..] == Untagged(proxy[1..]);
      } else {
        assert Untagged(proxy) == Untagged(proxy[1..]);
      }
    }
  }

  lemma {:induction false} AppliedProxy(s: Net, plan: seq<Change>, k: nat)
    requires Independent(plan) && k <= |plan|
    ensures Untagged(Applied(s, plan, k).proxy) == Untagged(s.proxy)
    ensures !HasProxy(plan, k) ==> Applied(s, plan, k).proxy == s.proxy
  {
    if k > 0 {
      AppliedProxy(s, plan, k - 1);
      var t := Applied(s, plan, k - 1);
      assert Paired(plan[k - 1]);
      assert ([EXCEPTION] + t.proxy)[1..] == t.proxy;
      assert HasProxy(plan, k) <==> HasProxy(plan, k - 1) || plan[k - 1].forward == ProxyInsert;
    }
  }

  lemma {:induction false} UndoneProxy(s: Net, plan: seq<Change>, m: nat)
    requires Independent(plan) && m <= |plan|
    ensures Undone(s, plan, m).proxy == if HasProxy(plan, m) then Untagged(s.proxy) else s.proxy
    decreases m
  {
    if m > 0 {
      var t := Apply(plan[m - 1].backward, s);
      assert Paired(plan[m - 1]);
      UndoneProxy(t, plan, m - 1);
      UntaggedTwice(s.proxy);
      assert HasProxy(plan, m) <==> HasProxy(plan, m - 1) || plan[m - 1].forward == ProxyInsert;
    }
  }

  /** The checks made at the start, as far as they concern what the plan changes. */
  ghost predicate StartChecks(s: Net, plan: seq<Change>)
    requires Independent(plan)
  {
    forall k :: 0 <= k < |plan| && !ItemOf(plan[k]).Proxy? ==> Undoable(plan[k], s)
  }

  /** Rules of an earlier run that this one can destroy. */
  predicate Destroys(s: Net, plan: seq<Change>, e: Ending)
    requires Possible(e, plan)
  {
    || (HasProxy(plan, Recorded(e)) && !NoTag(s.proxy))
    || (e.Clean? && plan[e.k].forward.ChainInsert? && plan[e.k].forward.spec in OnChain(s, plan[e.k].forward.chain))
  }

  /** However a start ends, everything is restored exactly unless it destroys rules of an earlier run. */
  lemma RestoredIff(s: Net, plan: seq<Change>, e: Ending)
    requires Independent(plan) && Possible(e, plan) && StartChecks(s, plan)
    ensures Final(s, plan, e) == s <==> !Destroys(s, plan, e)
  {
    var m := Recorded(e);
    AppliedProxy(s, plan, if e.Dirty? then e.k + 1 else e.k);
    UndoneProxy(AtEnd(s, plan, e), plan, m);
    UntaggedIff(s.proxy);
    if HasProxy(plan, m) && !NoTag(s.proxy) {
      assert Final(s, plan, e).proxy != s.proxy;
    } else {
      forall k | 0 <= k < m ensures Undoable(plan[k], s) {
        assert ItemOf(plan[k]).Proxy? ==> plan[k].forward == ProxyInsert;
      }
      if e.Clean? {
        CleanFailure(s, plan, e.k);
        if ItemOf(plan[e.k]).OnFilter? {
          DeleteIdleIff(s, plan[e.k].forward.chain, plan[e.k].forward.spec);
        } else {
          IdleUndo(plan[e.k], s);
        }
      } else {
        UndoneApplied(s, plan, m);
      }
    }
  }

  // ---------------------------------------------------------------- the hotspot's own plan

  lemma ForwardsDistinct(c: Config, iface: string)
    requires c.tun != c.uplink
    ensures forall j, k :: 0 <= j < k < |Forwards(c, iface)| ==> Forwards(c, iface)[j] != Forwards(c, iface)[k]
    ensures forall k :: 0 <= k < |Forwards(c, iface)| ==> Forwards(c, iface)[k].comment == TAG
  {
  }

  /** The changes to the packet filter and the routing rules, by position. */
  lemma ChangesIndependent(c: Config, iface: string)
    requires c.tun != c.uplink
    ensures Independent(Changes(c, iface))
    ensures forall k :: 0 <= k < |Changes(c, iface)| ==>
              var ch := Changes(c, iface)[k];
              (ch.forward.RuleAdd? && ch.forward.rule.priority in {8000, 8001}) ||
              (ch.forward.ChainInsert? && ch.forward.spec.comment == TAG)
  {
    var changes, forwards := Changes(c, iface), Forwards(c, iface);
    ForwardsDistinct(c, iface);
    hide Forwards, Masq, Ipv6Block;
    var ins := Insertions(forwards);
    assert Masq(c).comment == TAG && Ipv6Block(iface).comment == TAG by { Tagged(c, iface); }
    forall k | 0 <= k < |ins| ensures Paired(ins[k]) && ItemOf(ins[k]) == OnFilter(Forward4, forwards[k]) {}
    assert changes == changes[..2] + ins + [Insertion(Postrouting4, Masq(c))];
    forall j, k | 0 <= j < k < |changes| ensures ItemOf(changes[j]) != ItemOf(changes[k]) {
      if 2 <= j && k < |changes| - 1 { assert changes[j] == ins[j - 2] && changes[k] == ins[k - 2]; }
    }
  }

  lemma Tagged(c: Config, iface: string)
    ensures Masq(c).comment == TAG && Ipv6Block(iface).comment == TAG
  {
  }

  lemma PlanIndependent(c: Config, iface: string, managed: string, proxied: bool)
    requires c.tun != c.uplink
    ensures Independent(Plan(c, iface, managed, proxied))
  {
    ChangesIndependent(c, iface);
    hide Changes;
    var plan, changes := Plan(c, iface, managed, proxied), Changes(c, iface);
    var n := |plan| - |changes|;
    assert forall k :: n <= k < |plan| ==> plan[k] == changes[k - n];
    forall j, k | 0 <= j < k < |plan| ensures ItemOf(plan[j]) != ItemOf(plan[k]) {
      if n <= j {
        assert ItemOf(changes[j - n]) != ItemOf(changes[k - n]);
      }
    }
  }

  /** What `run` finds out before it changes anything. */
  ghost predicate HostChecks(s: Net, managed: string) {
    && s.managed == managed && s.addresses == []
    && forall r :: r in s.rules ==> r.priority != 8000 && r.priority != 8001
  }

  /** No rules of an earlier hotspot are left. */
  ghost predicate NoPriorRules(s: Net) {
    && NoTag(s.proxy)
    && forall chain, spec :: spec in OnChain(s, chain) ==> spec.comment != TAG
  }

  lemma ChecksSuffice(s: Net, c: Config, iface: string, managed: string, proxied: bool)
    requires c.tun != c.uplink && HostChecks(s, managed) && Independent(Plan(c, iface, managed, proxied))
    ensures StartChecks(s, Plan(c, iface, managed, proxied))
  {
    ChangesIndependent(c, iface);
    hide Changes, Independent;
    var plan, changes := Plan(c, iface, managed, proxied), Changes(c, iface);
    var n := |plan| - |changes|;
    forall k | 0 <= k < |plan| ensures Paired(plan[k]) && (ItemOf(plan[k]).Proxy? || Undoable(plan[k], s)) {
      if n <= k {
        assert plan[k] == changes[k - n];
        PairedAt(plan, k);
      }
    }
  }

  lemma PairedAt(plan: seq<Change>, k: nat)
    requires Independent(plan) && k < |plan|
    ensures Paired(plan[k])
  {
  }

  /** At whatever point the start fails, and after a normal stop, the host is as before. */
  lemma EveryEndingRestores(s: Net, c: Config, iface: string, managed: string, proxied: bool, e: Ending)
    requires c.tun != c.uplink && HostChecks(s, managed) && NoPriorRules(s)
    requires Possible(e, Plan(c, iface, managed, proxied))
    ensures Final(s, Plan(c, iface, managed, proxied), e) == s
  {
    var plan := Plan(c, iface, managed, proxied);
    PlanIndependent(c, iface, managed, proxied);
    ChecksSuffice(s, c, iface, managed, proxied);
    RestoredIff(s, plan, e);
    if e.Clean? && plan[e.k].forward.ChainInsert? {
      PlanIsTagged(c, iface, managed, proxied, e.k);
    }
  }

  lemma PlanIsTagged(c: Config, iface: string, managed: string, proxied: bool, k: nat)
    requires c.tun != c.uplink && k < |Plan(c, iface, managed, proxied)|
    ensures var f := Plan(c, iface, managed, proxied)[k].forward; f.ChainInsert? ==> f.spec.comment == TAG
  {
    ChangesIndependent(c, iface);
    hide Changes, Independent;
    var plan, changes := Plan(c, iface, managed, proxied), Changes(c, iface);
    var n := |plan| - |changes|;
    assert n <= k ==> plan[k] == changes[k - n];
  }

  // ---------------------------------------------------------------- the filter while it runs

  predicate Forwarding(ch: Change) {
    ch.forward.ChainInsert? && ch.forward.chain == Forward4
  }

  /** The forwarding rules among the first `k` changes. */
  function ForwardSpecs(plan: seq<Change>, k: nat): seq<Spec>
    requires k <= |plan|
  {
    if k == 0 then []
    else ForwardSpecs(plan, k - 1) + if Forwarding(plan[k - 1]) then [plan[k - 1].forward.spec] else []
  }

  lemma {:induction false} AppliedForward(s: Net, plan: seq<Change>, k: nat)
    requires Independent(plan) && k <= |plan|
    ensures Applied(s, plan, k).forward4 == Prepended(s.forward4, ForwardSpecs(plan, k))
  {
    if k > 0 {
      AppliedForward(s, plan, k - 1);
      assert Paired(plan[k - 1]);
      var before := ForwardSpecs(plan, k - 1);
      if Forwarding(plan[k - 1]) {
        assert (before + [plan[k - 1].forward.spec])[..|before|] == before;
      } else {
        assert before + [] == before;
      }
    }
  }

  lemma {:induction false} SpecsAt(plan: seq<Change>, h: nat, specs: seq<Spec>, n: nat)
    requires h + n <= |plan| && n <= |specs|
    requires forall i :: 0 <= i < h ==> !Forwarding(plan[i])
    requires forall i :: h <= i < h + n ==> plan[i] == Insertion(Forward4, specs[i - h])
    ensures ForwardSpecs(plan, h + n) == specs[..n]
    decreases h + n
  {
    if n > 0 {
      SpecsAt(plan, h, specs, n - 1);
      assert plan[h + n - 1] == Insertion(Forward4, specs[n - 1]);
    } else if h > 0 {
      SpecsAt(plan, h - 1, specs, 0);
    }
  }

  /** While the hotspot runs, the forwarding chain means its policy on top of what was there. */
  lemma StartedPolicy(s: Net, c: Config, iface: string, managed: string, proxied: bool, p: Packet)
    requires c.tun != c.uplink
    ensures var plan := Plan(c, iface, managed, proxied);
            Verdict(Applied(s, plan, |plan|).forward4, p) == Policy(c, iface, p, Verdict(s.forward4, p))
  {
    var plan := Plan(c, iface, managed, proxied);
    PlanIndependent(c, iface, managed, proxied);
    PlanForwards(c, iface, managed, proxied);
    AppliedForward(s, plan, |plan|);
    ForwardingPolicy(c, iface, s.forward4, p);
    hide *;
  }

  lemma PlanForwards(c: Config, iface: string, managed: string, proxied: bool)
    ensures var plan := Plan(c, iface, managed, proxied); ForwardSpecs(plan, |plan|) == Forwards(c, iface)
  {
    var plan, specs := Plan(c, iface, managed, proxied), Forwards(c, iface);
    hide Forwards;
    var h, n := |plan| - |specs| - 1, |specs|;
    forall i | h <= i < h + n ensures plan[i] == Insertion(Forward4, specs[i - h]) {
      assert plan[i] == Insertions(specs)[i - h];
    }
    assert plan[|plan| - 1] == Insertion(Postrouting4, Masq(c));
    SpecsAt(plan, h, specs, n);
    assert specs[..n] == specs;
  }
}
