/**
 * The routing and forwarding commands of the hotspot, each paired with the command that takes it
 * back, and what the packet filter means once all of them are in place.
 */
module Network {
  import opened Common

  /** Addresses are 32-bit numbers, networks ranges of them. */
  datatype Range = Range(lo: nat, hi: nat)

  predicate In(a: nat, r: Range) {
    r.lo <= a <= r.hi
  }

  const PRIVATE_NETWORKS: seq<Range> :=
    [Range(0x0A00_0000, 0x0AFF_FFFF), Range(0xAC10_0000, 0xAC1F_FFFF), Range(0xC0A8_0000, 0xC0A8_FFFF)]

  const TAG := "nas-wifi"

  datatype Target = Accept | Reject | Masquerade

  /** A packet-filter rule; absent parts match everything. */
  datatype Spec = Spec(comment: string, inIf: Option<string>, outIf: Option<string>, src: Option<Range>,
                       dst: Option<Range>, established: bool, target: Target)

  datatype Chain = Forward4 | Postrouting4 | Forward6

  /** A policy-routing rule; absent parts match everything. */
  datatype Rule = Rule(priority: nat, fromIf: Option<string>, to: Option<Range>, table: string)

  datatype Cmd =
    | SetManaged(managed: string)
    | AddressAdd(address: string)
    | AddressDel(address: string)
    | RuleAdd(rule: Rule)
    | RuleDel(rule: Rule)
    | ProxyInsert
    | ProxyRemoveTagged
    | ChainInsert(chain: Chain, spec: Spec)
    | ChainDelete(chain: Chain, spec: Spec)

  datatype Change = Change(forward: Cmd, backward: Cmd)

  datatype Config = Config(uplink: string, tun: string, subnet: Range, address: string, bypass: bool)

  // ---------------------------------------------------------------- the commands in order

  function Insertion(chain: Chain, spec: Spec): Change {
    Change(ChainInsert(chain, spec), ChainDelete(chain, spec))
  }

  function Routing(rule: Rule): Change {
    Change(RuleAdd(rule), RuleDel(rule))
  }

  function ClientRule(iface: string): Rule {
    Rule(8000, Some(iface), None, "main")
  }

  function ReplyRule(c: Config): Rule {
    Rule(8001, None, Some(c.subnet), "main")
  }

  function Out(c: Config, iface: string, outIf: string, dst: Option<Range>, target: Target): Spec {
    Spec(TAG, Some(iface), Some(outIf), Some(c.subnet), dst, false, target)
  }

  function Back(c: Config, iface: string, inIf: string): Spec {
    Spec(TAG, Some(inIf), Some(iface), None, Some(c.subnet), true, Accept)
  }

  function Masq(c: Config): Spec {
    Spec(TAG, None, Some(c.uplink), Some(c.subnet), None, false, Masquerade)
  }

  function Ipv6Block(iface: string): Spec {
    Spec(TAG, Some(iface), None, None, None, false, Reject)
  }

  /** The forwarding rules in the order of their insertion. */
  function Forwards(c: Config, iface: string): seq<Spec> {
    (if c.bypass then [Out(c, iface, c.uplink, None, Accept)]
     else [Out(c, iface, c.uplink, None, Reject),
           Out(c, iface, c.uplink, Some(PRIVATE_NETWORKS[0]), Accept),
           Out(c, iface, c.uplink, Some(PRIVATE_NETWORKS[1]), Accept),
           Out(c, iface, c.uplink, Some(PRIVATE_NETWORKS[2]), Accept),
           Out(c, iface, c.tun, None, Accept),
           Back(c, iface, c.tun)])
    + [Back(c, iface, c.uplink)]
  }

  function Insertions(specs: seq<Spec>): (r: seq<Change>)
    ensures |r| == |specs| && forall k :: 0 <= k < |specs| ==> r[k] == Insertion(Forward4, specs[k])
  {
    if specs == [] then [] else Insertions(specs[..|specs| - 1]) + [Insertion(Forward4, specs[|specs| - 1])]
  }

  function Changes(c: Config, iface: string): seq<Change> {
    (if c.bypass then [Routing(ClientRule(iface)), Routing(ReplyRule(c))]
     else [Routing(ReplyRule(c)), Insertion(Forward6, Ipv6Block(iface))])
    + Insertions(Forwards(c, iface)) + [Insertion(Postrouting4, Masq(c))]
  }

  method ForwardList(c: Config, iface: string) returns (forwards: seq<Spec>)
    ensures forwards == Forwards(c, iface)
  {
    forwards := [];
    if c.bypass {
      forwards := forwards + [Out(c, iface, c.uplink, None, Accept)];
    } else {
      forwards := forwards + [Out(c, iface, c.uplink, None, Reject)];
      for i := 0 to |PRIVATE_NETWORKS|
        invariant forwards == Forwards(c, iface)[..1 + i]
      {
        forwards := forwards + [Out(c, iface, c.uplink, Some(PRIVATE_NETWORKS[i]), Accept)];
      }
      forwards := forwards + [Out(c, iface, c.tun, None, Accept), Back(c, iface, c.tun)];
    }
    forwards := forwards + [Back(c, iface, c.uplink)];
  }

  lemma NextInsertion(specs: seq<Spec>, i: nat)
    requires i < |specs|
    ensures Insertions(specs[..i + 1]) == Insertions(specs[..i]) + [Insertion(Forward4, specs[i])]
  {
    assert specs[..i + 1][..i] == specs[..i];
  }

  /** network_changes. */
  method NetworkChanges(c: Config, iface: string) returns (changes: seq<Change>)
    ensures changes == Changes(c, iface)
  {
    changes := [];
    if c.bypass {
      changes := changes + [Routing(ClientRule(iface))];
    }
    changes := changes + [Routing(ReplyRule(c))];
    if !c.bypass {
      changes := changes + [Insertion(Forward6, Ipv6Block(iface))];
    }
    ghost var head := changes;
    assert Changes(c, iface) == head + Insertions(Forwards(c, iface)) + [Insertion(Postrouting4, Masq(c))];
    hide Forwards, Insertions, Insertion, Changes;
    var forwards := ForwardList(c, iface);
    assert Insertions(forwards[..0]) == [] by { NoInsertions(forwards); }
    for i := 0 to |forwards|
      invariant changes == head + Insertions(forwards[..i])
    {
      NextInsertion(forwards, i);
      changes := changes + [Insertion(Forward4, forwards[i])];
    }
    assert forwards[..|forwards|] == forwards;
    changes := changes + [Insertion(Postrouting4, Masq(c))];
  }

  lemma NoInsertions(specs: seq<Spec>)
    ensures Insertions(specs[..0]) == []
  {
  }

  // ---------------------------------------------------------------- what the filter means

  datatype Packet = Packet(inIf: string, outIf: string, src: nat, dst: nat, established: bool)

  predicate Matches(s: Spec, p: Packet) {
    && (s.inIf.Some? ==> p.inIf == s.inIf.value) && (s.outIf.Some? ==> p.outIf == s.outIf.value)
    && (s.src.Some? ==> In(p.src, s.src.value)) && (s.dst.Some? ==> In(p.dst, s.dst.value))
    && (s.established ==> p.established)
  }

  /** The first matching rule decides; without one the chain's policy does. */
  function Verdict(chain: seq<Spec>, p: Packet): Option<Target> {
    if chain == [] then None else if Matches(chain[0], p) then Some(chain[0].target) else Verdict(chain[1..], p)
  }

  /** A chain after specs were inserted one by one at its head. */
  function Prepended(chain: seq<Spec>, specs: seq<Spec>): seq<Spec> {
    if specs == [] then chain else [specs[|specs| - 1]] + Prepended(chain, specs[..|specs| - 1])
  }

  lemma VerdictLast(chain: seq<Spec>, specs: seq<Spec>, s: Spec, p: Packet)
    ensures Verdict(Prepended(chain, specs + [s]), p) ==
            if Matches(s, p) then Some(s.target) else Verdict(Prepended(chain, specs), p)
  {
    assert (specs + [s])[..|specs|] == specs;
    assert ([s] + Prepended(chain, specs))[1..] == Prepended(chain, specs);
  }

  /** 10.0.0.0/8, 172.16.0.0/12 and 192.168.0.0/16, by their prefixes. */
  predicate Private(a: nat) {
    a / 0x100_0000 == 10 || a / 0x10_0000 == 0x10 * 172 + 1 || a / 0x1_0000 == 0x100 * 192 + 168
  }

  lemma PrivateIs(a: nat)
    ensures Private(a) <==>
            In(a, PRIVATE_NETWORKS[0]) || In(a, PRIVATE_NETWORKS[1]) || In(a, PRIVATE_NETWORKS[2])
  {
  }

  predicate FromClient(c: Config, iface: string, p: Packet, outIf: string) {
    p.inIf == iface && p.outIf == outIf && In(p.src, c.subnet)
  }

  predicate Reply(c: Config, iface: string, p: Packet, inIf: string) {
    p.inIf == inIf && p.outIf == iface && In(p.dst, c.subnet) && p.established
  }

  /** What is meant: clients reach the proxy and private networks, replies return, public traffic is refused. */
  function Policy(c: Config, iface: string, p: Packet, otherwise: Option<Target>): Option<Target> {
    if Reply(c, iface, p, c.uplink) then Some(Accept)
    else if !c.bypass && Reply(c, iface, p, c.tun) then Some(Accept)
    else if !c.bypass && FromClient(c, iface, p, c.tun) then Some(Accept)
    else if FromClient(c, iface, p, c.uplink) then
      if c.bypass || Private(p.dst) then Some(Accept) else Some(Reject)
    else otherwise
  }

  /** The rules in place mean the policy; every other packet fares as before. */
  lemma ForwardingPolicy(c: Config, iface: string, chain: seq<Spec>, p: Packet)
    ensures Verdict(Prepended(chain, Forwards(c, iface)), p) == Policy(c, iface, p, Verdict(chain, p))
  {
    var back := Back(c, iface, c.uplink);
    if c.bypass {
      var s0 := Out(c, iface, c.uplink, None, Accept);
      VerdictLast(chain, [], s0, p);
      VerdictLast(chain, [s0], back, p);
      assert Forwards(c, iface) == [s0] + [back] && [] + [s0] == [s0];
    } else {
      PolicyPrefix(c, iface, chain, p);
      var specs := [Out(c, iface, c.uplink, None, Reject),
                    Out(c, iface, c.uplink, Some(PRIVATE_NETWORKS[0]), Accept),
                    Out(c, iface, c.uplink, Some(PRIVATE_NETWORKS[1]), Accept),
                    Out(c, iface, c.uplink, Some(PRIVATE_NETWORKS[2]), Accept)];
      var t, u := Out(c, iface, c.tun, None, Accept), Back(c, iface, c.tun);
      VerdictLast(chain, specs, t, p);
      VerdictLast(chain, specs + [t], u, p);
      VerdictLast(chain, specs + [t] + [u], back, p);
      assert Forwards(c, iface) == specs + [t] + [u] + [back];
    }
  }

  lemma PolicyPrefix(c: Config, iface: string, chain: seq<Spec>, p: Packet)
    ensures Verdict(Prepended(chain, [Out(c, iface, c.uplink, None, Reject),
                                      Out(c, iface, c.uplink, Some(PRIVATE_NETWORKS[0]), Accept),
                                      Out(c, iface, c.uplink, Some(PRIVATE_NETWORKS[1]), Accept),
                                      Out(c, iface, c.uplink, Some(PRIVATE_NETWORKS[2]), Accept)]), p) ==
            if FromClient(c, iface, p, c.uplink) then Some(if Private(p.dst) then Accept else Reject)
            else Verdict(chain, p)
  {
    PrivateIs(p.dst);
    hide Private;
    var s0 := Out(c, iface, c.uplink, None, Reject);
    var s1 := Out(c, iface, c.uplink, Some(PRIVATE_NETWORKS[0]), Accept);
    var s2 := Out(c, iface, c.uplink, Some(PRIVATE_NETWORKS[1]), Accept);
    var s3 := Out(c, iface, c.uplink, Some(PRIVATE_NETWORKS[2]), Accept);
    VerdictLast(chain, [], s0, p);
    VerdictLast(chain, [s0], s1, p);
    VerdictLast(chain, [s0, s1], s2, p);
    VerdictLast(chain, [s0, s1, s2], s3, p);
    assert [] + [s0] == [s0] && [s0] + [s1] == [s0, s1] && [s0, s1] + [s2] == [s0, s1, s2];
    assert [s0, s1, s2] + [s3] == [s0, s1, s2, s3];
  }

  /**
   * Through the proxy, no new connection of a client reaches a public address over the uplink,
   * for all packets, exactly when the tunnel is not the uplink itself.
   */
  lemma NoPublicLeakIff(c: Config, iface: string, chain: seq<Spec>)
    requires !c.bypass && iface != c.uplink && c.subnet.lo <= c.subnet.hi
    ensures (forall p :: FromClient(c, iface, p, c.uplink) && !Private(p.dst) ==>
                         Verdict(Prepended(chain, Forwards(c, iface)), p) == Some(Reject))
            <==> c.tun != c.uplink
  {
    if c.tun != c.uplink {
      forall p | FromClient(c, iface, p, c.uplink) && !Private(p.dst)
        ensures Verdict(Prepended(chain, Forwards(c, iface)), p) == Some(Reject)
      {
        ForwardingPolicy(c, iface, chain, p);
      }
    } else {
      var p := Packet(iface, c.uplink, c.subnet.lo, 0, false);
      ForwardingPolicy(c, iface, chain, p);
      assert FromClient(c, iface, p, c.uplink) && !Private(p.dst);
    }
  }
}
