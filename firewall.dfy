/**
 * controllers/firewall.go: masquerading of the traffic of a bridge. Enabling
 * it sets three sysctls, drops ARP for the virtual gateway address on the
 * bridge's egress, installs the NAT rules and announces the gateway with a
 * gratuitous ARP; disabling it removes the ebtables rules of the bridge and
 * purges its NAT chain. Each step runs only if the previous one succeeded.
 */
module Firewall {
  import opened Wrappers
  import opened Api
  import opened Host
  import opened Plans
  import Ebtables
  import Iptables

  /** The sysctl templates and the virtual gateway address. */
  function ArpProxySysctl(bridge: string): string
  {
    "net.ipv4.conf." + bridge + ".proxy_arp"
  }

  function DelayProxySysctl(bridge: string): string
  {
    "net.ipv4.neigh." + bridge + ".proxy_delay"
  }

  const Ipv4Forward: string := "net.ipv4.ip_forward"

  const VirtualIpAddress: string := "169.254.1.1"

  /** The ebtables rule that keeps ARP for the virtual gateway from leaving through the bridge. */
  function ArpDropRule(bridge: string): seq<string>
  {
    ["-p", "ARP", "--logical-out", bridge, "--arp-ip-dst", VirtualIpAddress, "-j", "DROP"]
  }

  /** The three sysctls EnableMasquerade sets first, in order. */
  function SysctlPlan(bridge: string): seq<Call>
  {
    [ SetSysctl(ArpProxySysctl(bridge), "1"),
      SetSysctl(DelayProxySysctl(bridge), "0"),
      SetSysctl(Ipv4Forward, "1") ]
  }

  /** The steps of EnableMasquerade, in order. */
  function MasqPlan(m: Masquerade): seq<Call>
  {
    BridgePlan(m.bridge) + NatPlan(m)
  }

  /** The first four steps of EnableMasquerade: the three sysctls, then the ARP drop rule. */
  function BridgePlan(bridge: string): seq<Call>
  {
    SysctlPlan(bridge) + [EbtRuleEnsured(ArpDropRule(bridge))]
  }

  /** The last two steps of EnableMasquerade: the NAT rules, then the gratuitous ARP. */
  function NatPlan(m: Masquerade): seq<Call>
  {
    [NatRulesEnsured(m.bridge, m.source, m.ignore, m.egressNetwork), ArpSent(VirtualIpAddress, m.bridge)]
  }

  /** The steps of DeleteMasquerade, in order. */
  function UnmasqPlan(m: Masquerade): seq<Call>
  {
    [EbtRulesPurged(m.bridge), NatChainPurged(m.bridge)]
  }

  /** The proxy ARP, proxy delay and IPv4 forwarding sysctls, each set only if the one before was. */
  method SetSysctls(h: Host, bridge: string) returns (e: Outcome)
    modifies h`sysctls, h`log
    ensures e.Pass? ==> h.log == old(h.log) + SysctlPlan(bridge)
    ensures e.Fail? ==> Aborted(old(h.log), h.log, SysctlPlan(bridge))
    ensures e.Pass? ==> h.sysctls == old(h.sysctls)[ArpProxySysctl(bridge) := "1"]
      [DelayProxySysctl(bridge) := "0"][Ipv4Forward := "1"]
  {
    var ok := h.Sysctl(ArpProxySysctl(bridge), "1");
    if !ok {
      AbortedAfter(old(h.log), [], SysctlPlan(bridge));
      return Fail(Foreign("sysctl proxy_arp"));
    }
    ok := h.Sysctl(DelayProxySysctl(bridge), "0");
    if !ok {
      AbortedAfter(old(h.log), SysctlPlan(bridge)[..1], SysctlPlan(bridge)[1..]);
      return Fail(Foreign("sysctl proxy_delay"));
    }
    ok := h.Sysctl(Ipv4Forward, "1");
    if !ok {
      AbortedAfter(old(h.log), SysctlPlan(bridge)[..2], SysctlPlan(bridge)[2..]);
      return Fail(Foreign("sysctl ip_forward"));
    }
    return Pass;
  }

  /** The sysctls of the bridge, then its ARP drop rule, the second only if the first succeeded. */
  method PrepareBridge(h: Host, bridge: string) returns (e: Outcome)
    modifies h`sysctls, h`forward, h`log
    ensures e.Pass? ==> h.log == old(h.log) + BridgePlan(bridge)
    ensures e.Fail? ==> Aborted(old(h.log), h.log, BridgePlan(bridge))
    ensures e.Pass? ==> h.sysctls == old(h.sysctls)[ArpProxySysctl(bridge) := "1"]
      [DelayProxySysctl(bridge) := "0"][Ipv4Forward := "1"]
    ensures e.Pass? ==> h.forward == Ebtables.Ensured(old(h.forward), ArpDropRule(bridge))
  {
    ghost var p, q := SysctlPlan(bridge), [EbtRuleEnsured(ArpDropRule(bridge))];
    e := SetSysctls(h, bridge);
    if e.Fail? {
      AbortedWithin(old(h.log), h.log, [], p, q);
      assert [] + p + q == BridgePlan(bridge);
      return e;
    }
    e := Ebtables.AddRule(h, ArpDropRule(bridge));
    if e.Fail? {
      AbortedAfter(old(h.log), p, q);
    }
  }

  /** The NAT rules of the bridge, then the gratuitous ARP for the virtual gateway, the second only if the first succeeded. */
  method NatAndAnnounce(h: Host, m: Masquerade) returns (e: Outcome, ghost egressIface: string, ghost answers: seq<bool>)
    modifies h`chains, h`garps, h`log
    ensures e.Pass? ==> h.log == old(h.log) + NatPlan(m)
    ensures e.Fail? ==> Aborted(old(h.log), h.log, NatPlan(m))
    ensures e.Pass? ==> h.chains == Iptables.EffectChecked(old(h.chains), m.bridge, m.source, m.ignore, egressIface, answers)
    ensures e.Pass? && Iptables.AllAnswered(answers) ==>
      h.chains == Iptables.Effect(old(h.chains), m.bridge, m.source, m.ignore, egressIface)
    ensures e.Pass? ==> h.garps == old(h.garps) + [Gratuitous(VirtualIpAddress, m.bridge)]
  {
    e, egressIface, answers := Iptables.AddRule(h, m.bridge, m.source, m.ignore, m.egressNetwork);
    if e.Fail? {
      AbortedAfter(old(h.log), [], NatPlan(m));
      return e, egressIface, answers;
    }
    var ok := h.Garp(VirtualIpAddress, m.bridge);
    if !ok {
      AbortedAfter(old(h.log), NatPlan(m)[..1], NatPlan(m)[1..]);
      return Fail(Foreign("arping")), egressIface, answers;
    }
    e := Pass;
  }

  /**
   * EnableMasquerade. On success the three sysctls hold their values, the
   * ARP drop rule is in FORWARD, the nat table has the bridge's rules for
   * the egress interface the run resolved, and one gratuitous ARP went out.
   */
  method EnableMasquerade(h: Host, m: Masquerade) returns (e: Outcome, ghost egressIface: string, ghost answers: seq<bool>)
    modifies h`sysctls, h`forward, h`chains, h`garps, h`log
    ensures e.Pass? ==> h.log == old(h.log) + MasqPlan(m)
    ensures e.Fail? ==> Aborted(old(h.log), h.log, MasqPlan(m))
    ensures e.Pass? ==> h.sysctls == old(h.sysctls)[ArpProxySysctl(m.bridge) := "1"]
      [DelayProxySysctl(m.bridge) := "0"][Ipv4Forward := "1"]
    ensures e.Pass? ==> h.forward == Ebtables.Ensured(old(h.forward), ArpDropRule(m.bridge))
    ensures e.Pass? ==> h.chains == Iptables.EffectChecked(old(h.chains), m.bridge, m.source, m.ignore, egressIface, answers)
    ensures e.Pass? && Iptables.AllAnswered(answers) ==>
      h.chains == Iptables.Effect(old(h.chains), m.bridge, m.source, m.ignore, egressIface)
    ensures e.Pass? ==> h.garps == old(h.garps) + [Gratuitous(VirtualIpAddress, m.bridge)]
  {
    egressIface, answers := "", [];
    ghost var p, r := BridgePlan(m.bridge), NatPlan(m);
    e := PrepareBridge(h, m.bridge);
    if e.Fail? {
      AbortedWithin(old(h.log), h.log, [], p, r);
      assert [] + p + r == MasqPlan(m);
      return e, egressIface, answers;
    }
    e, egressIface, answers := NatAndAnnounce(h, m);
    if e.Fail? {
      AbortedWithin(old(h.log), h.log, p, r, []);
      assert p + r + [] == MasqPlan(m);
    } else {
      Appended(old(h.log), p, r);
    }
  }

  /** DeleteMasquerade: the bridge's ebtables rules go first, then its NAT chain. */
  method DeleteMasquerade(h: Host, m: Masquerade) returns (e: Outcome)
    modifies h`forward, h`chains, h`log
    ensures e.Pass? ==> h.log == old(h.log) + UnmasqPlan(m)
    ensures e.Fail? ==> Aborted(old(h.log), h.log, UnmasqPlan(m))
    ensures e.Pass? ==> h.forward == WithoutDevice(old(h.forward), m.bridge)
    ensures e.Pass? ==> "POSTROUTING" in old(h.chains) && h.chains == Iptables.Purged(old(h.chains), Listing("POSTROUTING", old(h.chains)["POSTROUTING"]), m.bridge)
    ensures e.Fail? && h.log == old(h.log) ==> h.forward == old(h.forward) && h.chains == old(h.chains)
  {
    var ok := h.DeleteRuleByDevice(m.bridge);
    if !ok {
      AbortedAfter(old(h.log), [], UnmasqPlan(m));
      return Fail(Foreign("ebtables delete by device"));
    }
    e := Iptables.PurgeChain(h, m.bridge);
    if e.Fail? {
      AbortedAfter(old(h.log), UnmasqPlan(m)[..1], UnmasqPlan(m)[1..]);
      return e;
    }
  }
}
