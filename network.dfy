/**
 * controllers/network.go: comparing networks, adding one static route, and
 * applying or removing the whole network of an attachment spec. The bridges
 * come first (each with its VLAN ports), then the routes, then masquerading;
 * removal takes down each bridge's ports and the bridge, then masquerading.
 * Every operation stops at the first step that fails.
 */
module NetworkSetup {
  import opened Wrappers
  import opened Api
  import opened Host
  import opened Plans
  import LinuxBridge
  import Firewall
  import Ebtables
  import Iptables

  // ---------------------------------------------------------------------------
  // EqualCIDR

  /** The twelve bytes in front of an IPv4 address in its IPv6 form. */
  const V4InV6Prefix: seq<bv8> := [0, 0, 0, 0, 0, 0, 0, 0, 0, 0, 0xff, 0xff]

  /** net.IP.Equal: the same bytes, or an IPv4 address and its IPv4-in-IPv6 form. */
  function IpEqual(a: IP, b: IP): bool
  {
    if |a| == |b| then a == b
    else if |a| == 4 && |b| == 16 then b[..12] == V4InV6Prefix && a == b[12..]
    else if |a| == 16 && |b| == 4 then a[..12] == V4InV6Prefix && a[12..] == b
    else false
  }

  /** The short form of an address: an IPv4 address in IPv6 form loses its prefix. */
  function Canonical(ip: IP): IP
  {
    if |ip| == 16 && ip[..12] == V4InV6Prefix then ip[12..] else ip
  }

  function CanonicalNet(n: Option<IpNet>): Option<IpNet>
  {
    if n.None? then None else Some(IpNet(Canonical(n.value.ip), Canonical(n.value.mask)))
  }

  /** EqualCIDR: both absent, or the addresses and the masks are equal as IPs. */
  function EqualCIDR(a: Option<IpNet>, b: Option<IpNet>): (r: bool)
    ensures a == b ==> r
    ensures a.None? || b.None? ==> (r <==> a == b)
  {
    if a == b then true
    else if a.None? || b.None? then false
    else if !IpEqual(a.value.ip, b.value.ip) then false
    else if !IpEqual(a.value.mask, b.value.mask) then false
    else true
  }

  /** Two addresses are equal as IPs exactly when their short forms are the same. */
  lemma IpEqualCanonical(a: IP, b: IP)
    ensures IpEqual(a, b) <==> Canonical(a) == Canonical(b)
  {
    if |a| == 16 && a[..12] == V4InV6Prefix && |b| == 16 && b[..12] == V4InV6Prefix {
      if a[12..] == b[12..] {
        assert a == a[..12] + a[12..] && b == b[..12] + b[12..];
      }
    } else if |a| == 16 && a[..12] == V4InV6Prefix && |b| == 4 {
    } else if |b| == 16 && b[..12] == V4InV6Prefix && |a| == 4 {
    } else if |a| == 16 && a[..12] == V4InV6Prefix {
      assert |Canonical(a)| == 4 != |Canonical(b)| || |b| == 16;
      if |b| == 16 {
        assert a != b by { assert a[..12] != b[..12]; }
      }
    } else if |b| == 16 && b[..12] == V4InV6Prefix {
      if |a| == 16 {
        assert a != b by { assert a[..12] != b[..12]; }
      }
    }
  }

  /**
   * EqualCIDR compares the short forms, so it is an equivalence: reflexive,
   * symmetric and transitive.
   */
  lemma EqualCIDRCanonical(a: Option<IpNet>, b: Option<IpNet>)
    ensures EqualCIDR(a, b) <==> CanonicalNet(a) == CanonicalNet(b)
  {
    if a.Some? && b.Some? {
      IpEqualCanonical(a.value.ip, b.value.ip);
      IpEqualCanonical(a.value.mask, b.value.mask);
    }
  }

  lemma EqualCIDRTransitive(a: Option<IpNet>, b: Option<IpNet>, c: Option<IpNet>)
    requires EqualCIDR(a, b) && EqualCIDR(b, c)
    ensures EqualCIDR(a, c) && EqualCIDR(c, a)
  {
    EqualCIDRCanonical(a, b);
    EqualCIDRCanonical(b, c);
    EqualCIDRCanonical(a, c);
    EqualCIDRCanonical(c, a);
  }

  // ---------------------------------------------------------------------------
  // addRoute

  /** The source address of the last route whose destination equals network; None when none does. */
  function LastSrc(routes: seq<KernelRoute>, network: Option<IpNet>): Option<IP>
  {
    if |routes| == 0 then None
    else if EqualCIDR(routes[|routes| - 1].dst, network) then routes[|routes| - 1].src
    else LastSrc(routes[..|routes| - 1], network)
  }

  /** The scan of the route list for the source network: each matching route overwrites the answer. */
  method FindSource(routes: seq<KernelRoute>, network: Option<IpNet>) returns (srcIp: Option<IP>)
    ensures srcIp == LastSrc(routes, network)
  {
    srcIp := None;
    for i := 0 to |routes|
      invariant srcIp == LastSrc(routes[..i], network)
    {
      assert routes[..i + 1][..i] == routes[..i];
      if EqualCIDR(routes[i].dst, network) {
        srcIp := routes[i].src;
      }
    }
    assert routes[..|routes|] == routes;
  }

  /** The last route that matches decides, whatever the routes before it say. */
  lemma {:induction false} LastSrcIsLast(routes: seq<KernelRoute>, network: Option<IpNet>, i: nat)
    requires i < |routes| && EqualCIDR(routes[i].dst, network)
    requires forall j :: i < j < |routes| ==> !EqualCIDR(routes[j].dst, network)
    ensures LastSrc(routes, network) == routes[i].src
  {
    if i < |routes| - 1 {
      var front := routes[..|routes| - 1];
      assert forall j :: i < j < |front| ==> front[j] == routes[j];
      LastSrcIsLast(front, network, i);
    }
  }

  /** With no matching route there is no source address. */
  lemma {:induction false} LastSrcNone(routes: seq<KernelRoute>, network: Option<IpNet>)
    requires forall j :: 0 <= j < |routes| ==> !EqualCIDR(routes[j].dst, network)
    ensures LastSrc(routes, network) == None
  {
    if |routes| > 0 {
      var front := routes[..|routes| - 1];
      assert forall j :: 0 <= j < |front| ==> front[j] == routes[j];
      LastSrcNone(front, network);
    }
  }

  /**
   * addRoute: the destination must parse as a CIDR. A via that parses as an
   * IP is the gateway of a universe-scope route; otherwise it names the
   * device of a link-scope route. A non-empty source must parse as a CIDR
   * and some route to that network must give the source address. A route
   * that already exists is accepted.
   */
  method AddRoute(h: Host, r: Route) returns (e: Outcome, ghost route: KernelRoute)
    modifies h`routes, h`log
    ensures h.parseCIDR(r.destination).None? ==> e == Fail(Parse(r.destination))
    ensures h.parseIP(r.via).None? && r.via !in h.links ==> e.Fail?
    ensures (r.source != "" && h.parseCIDR(r.source).Some? &&
             LastSrc(old(h.routes), Some(h.parseCIDR(r.source).value.1)) == None) ==> e.Fail?
    ensures e.Pass? ==> h.parseCIDR(r.destination).Some? && route.dst == Some(h.parseCIDR(r.destination).value.1)
    ensures e.Pass? && h.parseIP(r.via).Some? ==>
      route.scope == Universe && route.gw == h.parseIP(r.via) && route.linkIndex == 0
    ensures e.Pass? && h.parseIP(r.via).None? ==>
      r.via in h.links && route.scope == LinkScope && route.gw == None && route.linkIndex == h.links[r.via].index
    ensures e.Pass? && r.source == "" ==> route.src == None
    ensures e.Pass? && r.source != "" ==> h.parseCIDR(r.source).Some? && route.src.Some?
    ensures e.Pass? && r.source != "" ==> route.src == LastSrc(old(h.routes), Some(h.parseCIDR(r.source).value.1))
    ensures e.Pass? ==> (h.routes == old(h.routes) + [route] ||
                         (h.routes == old(h.routes) && exists i :: 0 <= i < |h.routes| && h.routes[i].dst == route.dst))
    ensures e.Pass? ==> h.log == old(h.log) + [RouteEnsured(r)]
    ensures e.Fail? ==> h.routes == old(h.routes) && h.log == old(h.log)
  {
    route := KernelRoute(None, None, 0, Universe, None);
    var kr := KernelRoute(None, None, 0, Universe, None);
    var dst := h.parseCIDR(r.destination);
    if dst.None? {
      return Fail(Parse(r.destination)), route;
    }
    var gw := h.parseIP(r.via);
    if gw.None? {
      var iface := h.LinkByName(r.via);
      if iface.Failed? {
        return Fail(iface.error), route;
      }
      if iface.Missing? {
        return Fail(Foreign("netlink.LinkByName")), route;
      }
      kr := KernelRoute(None, None, iface.value.index, LinkScope, None);
    } else {
      kr := KernelRoute(None, gw, 0, Universe, None);
    }
    if r.source != "" {
      var src := h.parseCIDR(r.source);
      if src.None? {
        return Fail(Parse(r.source)), route;
      }
      var routeList := h.RouteList();
      if routeList.Err? {
        return Fail(routeList.error), route;
      }
      var srcIp := FindSource(routeList.value, Some(src.value.1));
      if srcIp.None? {
        return Fail(NoSourceIp(r.source)), route;
      }
      kr := kr.(src := srcIp);
    }
    kr := kr.(dst := Some(dst.value.1));
    route := kr;
    var added := h.RouteAdd(kr);
    if added.AddFailed? {
      return Fail(added.error), route;
    }
    h.log := h.log + [RouteEnsured(r)];
    e := Pass;
  }

  // ---------------------------------------------------------------------------
  // CreateNetwork

  /** Adding one port: its VLAN interface, then enslaving that interface to the bridge. */
  function PortPlan(bridge: string, p: Port): seq<Call>
  {
    [VlanEnsured(p.name, p.vlan, p.mtu), Enslaved(LinuxBridge.VlanName(p.name, p.vlan), bridge)]
  }

  function PortStep(bridge: string): Port -> seq<Call>
  {
    p => PortPlan(bridge, p)
  }

  function PortsPlan(bridge: string, ports: seq<Port>): seq<Call>
  {
    Steps(ports, PortStep(bridge))
  }

  /** Setting up one bridge: the bridge, then its ports in order. */
  function BridgePlan(b: Bridge): seq<Call>
  {
    [BridgeEnsured(b.name, b.mtu)] + PortsPlan(b.name, b.ports)
  }

  function BridgesPlan(bs: seq<Bridge>): seq<Call>
  {
    Steps(bs, BridgePlan)
  }

  function RoutePlan(r: Route): seq<Call>
  {
    [RouteEnsured(r)]
  }

  function RoutesPlan(rs: seq<Route>): seq<Call>
  {
    Steps(rs, RoutePlan)
  }

  function MasqueradePlan(m: Masquerade): seq<Call>
  {
    if m.enabled then Firewall.MasqPlan(m) else []
  }

  /** The steps of CreateNetwork, in order. */
  function CreatePlan(spec: NetworkAttachmentSpec): seq<Call>
  {
    BridgesPlan(spec.bridge) + RoutesPlan(spec.routes) + MasqueradePlan(spec.ipMasq)
  }

  /** Every VLAN of ports is a link enslaved to bridge. */
  predicate AllEnslaved(links: map<string, Link>, bridge: string, ports: seq<Port>)
  {
    forall p :: p in ports ==>
      (LinuxBridge.VlanName(p.name, p.vlan) in links &&
       links[LinuxBridge.VlanName(p.name, p.vlan)].master == Some(bridge))
  }

  /** The VLAN interface names of ports. */
  function PortNames(ports: seq<Port>): set<string>
  {
    if |ports| == 0 then {}
    else PortNames(ports[..|ports| - 1]) + {LinuxBridge.VlanName(ports[|ports| - 1].name, ports[|ports| - 1].vlan)}
  }

  /** Every port's VLAN is among the names of its list. */
  lemma {:induction false} PortNamesMember(ports: seq<Port>, k: nat)
    requires k < |ports|
    ensures LinuxBridge.VlanName(ports[k].name, ports[k].vlan) in PortNames(ports)
  {
    if k < |ports| - 1 {
      assert ports[..|ports| - 1][k] == ports[k];
      PortNamesMember(ports[..|ports| - 1], k);
    }
  }

  /**
   * No VLAN interface is declared by two bridges. A link has one master, so
   * when two bridges declare the same VLAN the later bridge takes it.
   */
  predicate SeparatePorts(bs: seq<Bridge>)
  {
    forall i, j :: 0 <= i < j < |bs| ==> PortNames(bs[i].ports) !! PortNames(bs[j].ports)
  }

  /** Every link of before outside except is still a link of after, with the same master. */
  predicate MastersKept(before: map<string, Link>, after: map<string, Link>, except: set<string>)
  {
    forall n :: n in before && n !in except ==> n in after && after[n].master == before[n].master
  }

  lemma MastersKeptTrans(a: map<string, Link>, b: map<string, Link>, c: map<string, Link>,
                         x: set<string>, y: set<string>, z: set<string>)
    requires MastersKept(a, b, x) && MastersKept(b, c, y) && x + y <= z
    ensures MastersKept(a, c, z)
  {
  }

  /** An enslaved VLAN whose master nobody touched stays enslaved. */
  lemma EnslavedKept(before: map<string, Link>, after: map<string, Link>, bridge: string, ports: seq<Port>,
                     except: set<string>)
    requires AllEnslaved(before, bridge, ports)
    requires MastersKept(before, after, except) && PortNames(ports) !! except
    ensures AllEnslaved(after, bridge, ports)
  {
    forall p | p in ports
      ensures LinuxBridge.VlanName(p.name, p.vlan) in after
      ensures after[LinuxBridge.VlanName(p.name, p.vlan)].master == Some(bridge)
    {
      var k :| 0 <= k < |ports| && ports[k] == p;
      PortNamesMember(ports, k);
    }
  }

  /**
   * The body of CreateNetwork's loop over the bridges: create the bridge,
   * then for each port add its VLAN and enslave the VLAN to the bridge.
   */
  method SetUpBridge(h: Host, b: Bridge) returns (e: Outcome)
    modifies h`links, h`log
    ensures old(h.links).Keys <= h.links.Keys
    ensures e.Pass? ==> h.log == old(h.log) + BridgePlan(b)
    ensures e.Fail? ==> Aborted(old(h.log), h.log, BridgePlan(b))
    ensures e.Pass? ==> b.name in h.links && AllEnslaved(h.links, b.name, b.ports)
    ensures e.Pass? ==> MastersKept(old(h.links), h.links, PortNames(b.ports))
  {
    e := LinuxBridge.Create(h, b.name, b.mtu);
    if e.Fail? {
      AbortedAfter(old(h.log), [], BridgePlan(b));
      return;
    }
    ghost var created := h.links;
    assert MastersKept(old(h.links), created, {});
    e := SetUpPorts(h, b.name, b.ports);
    if e.Fail? {
      AbortedWithin(old(h.log), h.log, [BridgeEnsured(b.name, b.mtu)], PortsPlan(b.name, b.ports), []);
      assert BridgePlan(b) + [] == BridgePlan(b);
      return;
    }
    Appended(old(h.log), [BridgeEnsured(b.name, b.mtu)], PortsPlan(b.name, b.ports));
    MastersKeptTrans(old(h.links), created, h.links, {}, PortNames(b.ports), PortNames(b.ports));
  }

  /** The loop over one bridge's ports, stopping at the first port that fails. */
  method SetUpPorts(h: Host, bridge: string, ports: seq<Port>) returns (e: Outcome)
    requires bridge in h.links
    modifies h`links, h`log
    ensures old(h.links).Keys <= h.links.Keys
    ensures e.Pass? ==> h.log == old(h.log) + PortsPlan(bridge, ports)
    ensures e.Fail? ==> Aborted(old(h.log), h.log, PortsPlan(bridge, ports))
    ensures e.Pass? ==> AllEnslaved(h.links, bridge, ports)
    ensures e.Pass? ==> MastersKept(old(h.links), h.links, PortNames(ports))
  {
    ghost var start, log := h.links, h.log;
    e := Pass;
    for j := 0 to |ports|
      invariant e.Pass?
      invariant start.Keys <= h.links.Keys
      invariant h.log == log + PortsPlan(bridge, ports[..j])
      invariant AllEnslaved(h.links, bridge, ports[..j])
      invariant MastersKept(start, h.links, PortNames(ports[..j]))
    {
      ghost var k;
      ghost var links := h.links;
      e, k := SetUpPort(h, bridge, ports[j], ports[..j], start);
      if e.Fail? {
        PortsAborted(log, h.log, bridge, ports, j, k);
        return;
      }
      assert ports[..j] + [ports[j]] == ports[..j + 1];
      StepsNext(log, ports, PortStep(bridge), j);
    }
    assert ports[..|ports|] == ports;
  }

  /** A port changing only its own VLAN's master extends what the ports before it kept. */
  lemma PortKept(a: map<string, Link>, b: map<string, Link>, c: map<string, Link>, done: seq<Port>, p: Port)
    requires MastersKept(a, b, PortNames(done))
    requires MastersKept(b, c, {LinuxBridge.VlanName(p.name, p.vlan)})
    ensures MastersKept(a, c, PortNames(done + [p]))
  {
    PortNamesSnoc(done + [p], |done|);
    assert (done + [p])[..|done|] == done && (done + [p])[..|done| + 1] == done + [p];
    MastersKeptTrans(a, b, c, PortNames(done), {LinuxBridge.VlanName(p.name, p.vlan)}, PortNames(done + [p]));
  }

  lemma PortNamesSnoc(ports: seq<Port>, j: nat)
    requires j < |ports|
    ensures PortNames(ports[..j + 1]) == PortNames(ports[..j]) + {LinuxBridge.VlanName(ports[j].name, ports[j].vlan)}
  {
    assert ports[..j + 1] == ports[..j] + [ports[j]];
  }

  /**
   * One port of a bridge: add its VLAN and enslave the VLAN to the bridge;
   * the VLANs of the ports done, done, stay enslaved. k counts the steps
   * that succeeded.
   */
  method SetUpPort(h: Host, bridge: string, p: Port, ghost done: seq<Port>, ghost start: map<string, Link>)
    returns (e: Outcome, ghost k: nat)
    requires bridge in h.links && AllEnslaved(h.links, bridge, done)
    requires start.Keys <= h.links.Keys && MastersKept(start, h.links, PortNames(done))
    modifies h`links, h`log
    ensures start.Keys <= h.links.Keys
    ensures e.Pass? ==> h.log == old(h.log) + PortPlan(bridge, p)
    ensures e.Pass? ==> AllEnslaved(h.links, bridge, done + [p])
    ensures e.Pass? ==> MastersKept(start, h.links, PortNames(done + [p]))
    ensures e.Fail? ==> k < 2 && h.log == old(h.log) + PortPlan(bridge, p)[..k]
  {
    var vlan := LinuxBridge.AddVlan(h, p.name, p.vlan, p.mtu);
    if vlan.Err? {
      return Fail(vlan.error), 0;
    }
    ghost var before := h.log;
    EnslavedRaised(old(h.links), bridge, done, vlan.value,
      LinuxBridge.NewVlan(p.name, p.vlan, p.mtu).(index := h.links[vlan.value].index));
    EnslavedStep(h.links, bridge, done + [p], |done|);
    assert (done + [p])[..|done|] == done && (done + [p])[..|done| + 1] == done + [p];
    var ok := h.LinkSetMaster(vlan.value, bridge);
    if !ok {
      return Fail(Foreign("netlink.LinkSetMaster")), 1;
    }
    PortKept(start, old(h.links), h.links, done, p);
    return Pass, 2;
  }

  /** Raising some link keeps every enslaved VLAN enslaved. */
  lemma EnslavedRaised(links: map<string, Link>, bridge: string, ports: seq<Port>, name: string, created: Link)
    requires AllEnslaved(links, bridge, ports)
    ensures AllEnslaved(LinuxBridge.Raised(links, name, created), bridge, ports)
  {
  }

  /** Enslaving port j's VLAN extends the enslaved prefix by one. */
  lemma EnslavedStep(links: map<string, Link>, bridge: string, ports: seq<Port>, j: nat)
    requires j < |ports|
    requires AllEnslaved(links, bridge, ports[..j])
    requires LinuxBridge.VlanName(ports[j].name, ports[j].vlan) in links
    ensures var name := LinuxBridge.VlanName(ports[j].name, ports[j].vlan);
      AllEnslaved(links[name := links[name].(master := Some(bridge))], bridge, ports[..j + 1])
  {
    assert ports[..j + 1] == ports[..j] + [ports[j]];
  }

  /** Stopping inside port j, after k of its steps, is stopping inside the ports' plan. */
  lemma PortsAborted(before: seq<Call>, after: seq<Call>, bridge: string, ports: seq<Port>, j: nat, k: nat)
    requires j < |ports| && k < 2
    requires after == before + PortsPlan(bridge, ports[..j]) + PortPlan(bridge, ports[j])[..k]
    ensures Aborted(before, after, PortsPlan(bridge, ports))
  {
    StepsSplit(ports, PortStep(bridge), j);
    AbortedInside(before, [], PortsPlan(bridge, ports[..j]), PortPlan(bridge, ports[j]), k, PortsPlan(bridge, ports[j + 1..]));
    assert before + [] == before;
    assert [] + (PortsPlan(bridge, ports[..j]) + PortPlan(bridge, ports[j]) + PortsPlan(bridge, ports[j + 1..])) ==
      PortsPlan(bridge, ports);
  }

  /** CreateNetwork's loop over the bridges, stopping at the first bridge that fails. */
  method SetUpBridges(h: Host, bs: seq<Bridge>) returns (e: Outcome)
    modifies h`links, h`log
    ensures old(h.links).Keys <= h.links.Keys
    ensures e.Pass? ==> h.log == old(h.log) + BridgesPlan(bs)
    ensures e.Fail? ==> Aborted(old(h.log), h.log, BridgesPlan(bs))
    ensures e.Pass? ==> AllPresent(h.links, bs)
    ensures e.Pass? && SeparatePorts(bs) ==> forall i :: 0 <= i < |bs| ==> AllEnslaved(h.links, bs[i].name, bs[i].ports)
  {
    e := Pass;
    for i := 0 to |bs|
      invariant e.Pass?
      invariant h.log == old(h.log) + BridgesPlan(bs[..i])
      invariant old(h.links).Keys <= h.links.Keys
      invariant AllPresent(h.links, bs[..i])
      invariant SeparatePorts(bs) ==> forall j :: 0 <= j < i ==> AllEnslaved(h.links, bs[j].name, bs[j].ports)
    {
      ghost var links := h.links;
      e := SetUpBridge(h, bs[i]);
      if e.Fail? {
        BridgesAborted(old(h.log), h.log, bs, i);
        return;
      }
      StepsNext(old(h.log), bs, BridgePlan, i);
      PresentStep(links, h.links, bs, i);
      if SeparatePorts(bs) {
        forall j | 0 <= j < i
          ensures AllEnslaved(h.links, bs[j].name, bs[j].ports)
        {
          EnslavedKept(links, h.links, bs[j].name, bs[j].ports, PortNames(bs[i].ports));
        }
      }
    }
    StepsAll(bs, BridgePlan);
    assert bs[..|bs|] == bs;
  }

  /** CreateNetwork's loop over the routes, stopping at the first route that fails. */
  method AddRoutes(h: Host, rs: seq<Route>) returns (e: Outcome)
    modifies h`routes, h`log
    ensures e.Pass? ==> h.log == old(h.log) + RoutesPlan(rs)
    ensures e.Fail? ==> Aborted(old(h.log), h.log, RoutesPlan(rs))
  {
    e := Pass;
    for i := 0 to |rs|
      invariant e.Pass?
      invariant h.log == old(h.log) + RoutesPlan(rs[..i])
    {
      ghost var route;
      e, route := AddRoute(h, rs[i]);
      if e.Fail? {
        RoutesAborted(old(h.log), h.log, rs, i);
        return;
      }
      StepsNext(old(h.log), rs, RoutePlan, i);
    }
    StepsAll(rs, RoutePlan);
  }

  /**
   * CreateNetwork: set up every bridge with its ports, then add every
   * route, then enable masquerading when the spec asks for it.
   */
  method CreateNetwork(h: Host, spec: NetworkAttachmentSpec) returns (e: Outcome)
    modifies h`links, h`routes, h`sysctls, h`forward, h`chains, h`garps, h`log
    ensures e.Pass? ==> h.log == old(h.log) + CreatePlan(spec)
    ensures e.Fail? ==> Aborted(old(h.log), h.log, CreatePlan(spec))
    ensures old(h.links).Keys <= h.links.Keys
    ensures e.Pass? ==> AllPresent(h.links, spec.bridge)
    ensures !spec.ipMasq.enabled ==> h.forward == old(h.forward) && h.chains == old(h.chains)
    ensures e.Pass? && SeparatePorts(spec.bridge) ==>
      forall i :: 0 <= i < |spec.bridge| ==> AllEnslaved(h.links, spec.bridge[i].name, spec.bridge[i].ports)
    ensures !spec.ipMasq.enabled ==> h.sysctls == old(h.sysctls) && h.garps == old(h.garps)
    ensures e.Pass? && spec.ipMasq.enabled ==>
      h.forward == Ebtables.Ensured(old(h.forward), Firewall.ArpDropRule(spec.ipMasq.bridge))
    ensures e.Pass? && spec.ipMasq.enabled ==>
      h.sysctls == old(h.sysctls)[Firewall.ArpProxySysctl(spec.ipMasq.bridge) := "1"]
        [Firewall.DelayProxySysctl(spec.ipMasq.bridge) := "0"][Firewall.Ipv4Forward := "1"]
    ensures e.Pass? && spec.ipMasq.enabled ==>
      h.garps == old(h.garps) + [Gratuitous(Firewall.VirtualIpAddress, spec.ipMasq.bridge)]
    ensures e.Pass? && spec.ipMasq.enabled ==>
      exists iface: string, answers: seq<bool> ::
        && h.chains == Iptables.EffectChecked(old(h.chains), spec.ipMasq.bridge, spec.ipMasq.source,
                                              spec.ipMasq.ignore, iface, answers)
        && (Iptables.AllAnswered(answers) ==>
              h.chains == Iptables.Effect(old(h.chains), spec.ipMasq.bridge, spec.ipMasq.source,
                                          spec.ipMasq.ignore, iface))
  {
    ghost var bp, rp, mp := BridgesPlan(spec.bridge), RoutesPlan(spec.routes), MasqueradePlan(spec.ipMasq);
    e := SetUpBridges(h, spec.bridge);
    if e.Fail? {
      AbortedPrefix(old(h.log), h.log, bp, rp, mp);
      return;
    }
    e := AddRoutes(h, spec.routes);
    if e.Fail? {
      AbortedWithin(old(h.log), h.log, bp, rp, mp);
      return;
    }
    if spec.ipMasq.enabled {
      ghost var egressIface, answers;
      e, egressIface, answers := Firewall.EnableMasquerade(h, spec.ipMasq);
      if e.Fail? {
        LastAborted(old(h.log), h.log, bp, rp, mp);
        return;
      }
      assert h.chains == Iptables.EffectChecked(old(h.chains), spec.ipMasq.bridge, spec.ipMasq.source,
                                                spec.ipMasq.ignore, egressIface, answers);
    } else {
      e := Pass;
    }
    Regrouped(old(h.log), bp, rp, mp);
  }

  /** Every bridge of bs is a link. */
  predicate AllPresent(links: map<string, Link>, bs: seq<Bridge>)
  {
    forall b :: b in bs ==> b.name in links
  }

  /** Setting up bridge i keeps the earlier bridges and adds bridge i. */
  lemma PresentStep(links: map<string, Link>, after: map<string, Link>, bs: seq<Bridge>, i: nat)
    requires i < |bs|
    requires AllPresent(links, bs[..i])
    requires links.Keys <= after.Keys && bs[i].name in after
    ensures AllPresent(after, bs[..i + 1])
  {
    assert bs[..i + 1] == bs[..i] + [bs[i]];
  }

  /** Stopping inside bridge i is stopping inside the bridges' plan and whatever follows it. */
  lemma BridgesAborted(before: seq<Call>, after: seq<Call>, bs: seq<Bridge>, i: nat)
    requires i < |bs|
    requires Aborted(before + BridgesPlan(bs[..i]), after, BridgePlan(bs[i]))
    ensures Aborted(before, after, BridgesPlan(bs))
  {
    StepsSplit(bs, BridgePlan, i);
    AbortedWithin(before, after, BridgesPlan(bs[..i]), BridgePlan(bs[i]), BridgesPlan(bs[i + 1..]));
  }

  /** Stopping at route i is stopping inside the routes' plan. */
  lemma RoutesAborted(before: seq<Call>, after: seq<Call>, rs: seq<Route>, i: nat)
    requires i < |rs|
    requires after == before + RoutesPlan(rs[..i])
    ensures Aborted(before, after, RoutesPlan(rs))
  {
    StepsSplit(rs, RoutePlan, i);
    AbortedBefore(before, RoutesPlan(rs[..i]), [RouteEnsured(rs[i])], RoutesPlan(rs[i + 1..]), []);
  }

  /** Stopping inside the last block, after head and middle, is stopping inside head + middle + last. */
  lemma LastAborted(before: seq<Call>, after: seq<Call>, head: seq<Call>, middle: seq<Call>, last: seq<Call>)
    requires Aborted(before + head + middle, after, last)
    ensures Aborted(before, after, head + middle + last)
  {
    assert before + head + middle == before + (head + middle);
    AbortedWithin(before, after, head + middle, last, []);
    assert head + middle + last + [] == head + middle + last;
  }

  // ---------------------------------------------------------------------------
  // DeleteNetwork

  /** The port DeleteNetwork deletes: the VLAN interface, or the parent itself for VLAN 0. */
  function DeleteName(p: Port): string
  {
    if p.vlan != 0 then LinuxBridge.VlanName(p.name, p.vlan) else p.name
  }

  function PortDeletion(p: Port): seq<Call>
  {
    [PortDeleted(DeleteName(p))]
  }

  function DetachPlan(ports: seq<Port>): seq<Call>
  {
    Steps(ports, PortDeletion)
  }

  /** Taking down one bridge: its ports in order, then the bridge. */
  function TeardownPlan(b: Bridge): seq<Call>
  {
    DetachPlan(b.ports) + [BridgeRemoved(b.name)]
  }

  function TeardownsPlan(bs: seq<Bridge>): seq<Call>
  {
    Steps(bs, TeardownPlan)
  }

  function UnmasqueradePlan(m: Masquerade): seq<Call>
  {
    if m.enabled then Firewall.UnmasqPlan(m) else []
  }

  /** The steps of DeleteNetwork, in order. */
  function DeletePlan(spec: NetworkAttachmentSpec): seq<Call>
  {
    TeardownsPlan(spec.bridge) + UnmasqueradePlan(spec.ipMasq)
  }

  /** None of ports' delete names is a link. */
  predicate AllDetached(links: map<string, Link>, ports: seq<Port>)
  {
    forall p :: p in ports ==> DeleteName(p) !in links
  }

  /**
   * The body of DeleteNetwork's loop over the bridges: delete each port,
   * then remove the bridge, giving Remove no ports of its own.
   */
  method TearDownBridge(h: Host, b: Bridge) returns (e: Outcome)
    modifies h`links, h`log
    ensures h.links.Keys <= old(h.links).Keys
    ensures e.Pass? ==> h.log == old(h.log) + TeardownPlan(b)
    ensures e.Fail? ==> Aborted(old(h.log), h.log, TeardownPlan(b))
    ensures e.Pass? ==> b.name !in h.links && AllDetached(h.links, b.ports)
  {
    for j := 0 to |b.ports|
      invariant h.links.Keys <= old(h.links).Keys
      invariant h.log == old(h.log) + DetachPlan(b.ports[..j])
      invariant AllDetached(h.links, b.ports[..j])
    {
      var port := b.ports[j];
      var pName := port.name;
      if port.vlan != 0 {
        pName := LinuxBridge.VlanName(port.name, port.vlan);
      }
      ghost var links := h.links;
      e := LinuxBridge.DeletePort(h, pName);
      if e.Fail? {
        DetachAborted(old(h.log), h.log, b, j);
        return;
      }
      DetachedStep(links, h.links, b.ports, j);
      StepsNext(old(h.log), b.ports, PortDeletion, j);
    }
    assert b.ports[..|b.ports|] == b.ports;
    ghost var links := h.links;
    e := LinuxBridge.Remove(h, Bridge(b.name, 0, []));
    if e.Fail? {
      AbortedAfter(old(h.log), DetachPlan(b.ports), [BridgeRemoved(b.name)]);
      return;
    }
    assert AllDetached(h.links, b.ports) by {
      forall p | p in b.ports ensures DeleteName(p) !in h.links {
        assert DeleteName(p) !in links;
      }
    }
  }

  /** Deleting port j's link keeps the earlier ports' links gone and removes port j's. */
  lemma DetachedStep(links: map<string, Link>, after: map<string, Link>, ports: seq<Port>, j: nat)
    requires j < |ports|
    requires AllDetached(links, ports[..j])
    requires after.Keys <= links.Keys && DeleteName(ports[j]) !in after
    ensures AllDetached(after, ports[..j + 1])
  {
    assert ports[..j + 1] == ports[..j] + [ports[j]];
  }

  /** Stopping at port j is stopping inside the bridge's teardown. */
  lemma DetachAborted(before: seq<Call>, after: seq<Call>, b: Bridge, j: nat)
    requires j < |b.ports|
    requires after == before + DetachPlan(b.ports[..j])
    ensures Aborted(before, after, TeardownPlan(b))
  {
    StepsSplit(b.ports, PortDeletion, j);
    AbortedBefore(before, DetachPlan(b.ports[..j]), [PortDeleted(DeleteName(b.ports[j]))],
      DetachPlan(b.ports[j + 1..]), [BridgeRemoved(b.name)]);
  }

  /** Every bridge of bs and every port it lists is gone from links. */
  predicate AllTornDown(links: map<string, Link>, bs: seq<Bridge>)
  {
    forall b :: b in bs ==> b.name !in links && AllDetached(links, b.ports)
  }

  /** Tearing down bridge i keeps the earlier bridges gone and removes bridge i. */
  lemma TornDownStep(links: map<string, Link>, after: map<string, Link>, bs: seq<Bridge>, i: nat)
    requires i < |bs|
    requires AllTornDown(links, bs[..i])
    requires after.Keys <= links.Keys
    requires bs[i].name !in after && AllDetached(after, bs[i].ports)
    ensures AllTornDown(after, bs[..i + 1])
  {
    assert bs[..i + 1] == bs[..i] + [bs[i]];
  }

  /** Stopping inside bridge i's teardown is stopping inside the teardowns' plan. */
  lemma TeardownsAborted(before: seq<Call>, after: seq<Call>, bs: seq<Bridge>, i: nat)
    requires i < |bs|
    requires Aborted(before + TeardownsPlan(bs[..i]), after, TeardownPlan(bs[i]))
    ensures Aborted(before, after, TeardownsPlan(bs))
  {
    StepsSplit(bs, TeardownPlan, i);
    AbortedWithin(before, after, TeardownsPlan(bs[..i]), TeardownPlan(bs[i]), TeardownsPlan(bs[i + 1..]));
  }

  /**
   * DeleteNetwork: take down every bridge, deleting its ports first, then
   * drop the masquerading rules when the spec enables masquerading. Static
   * routes are left in place.
   */
  method DeleteNetwork(h: Host, spec: NetworkAttachmentSpec) returns (e: Outcome)
    modifies h`links, h`forward, h`chains, h`log
    ensures e.Pass? ==> h.log == old(h.log) + DeletePlan(spec)
    ensures e.Fail? ==> Aborted(old(h.log), h.log, DeletePlan(spec))
    ensures h.links.Keys <= old(h.links).Keys
    ensures h.routes == old(h.routes)
    ensures e.Pass? ==> AllTornDown(h.links, spec.bridge)
    ensures !spec.ipMasq.enabled ==> h.forward == old(h.forward) && h.chains == old(h.chains)
    ensures e.Pass? && spec.ipMasq.enabled ==>
      h.forward == WithoutDevice(old(h.forward), spec.ipMasq.bridge)
    ensures e.Pass? && spec.ipMasq.enabled ==>
      && "POSTROUTING" in old(h.chains)
      && h.chains == Iptables.Purged(old(h.chains), Listing("POSTROUTING", old(h.chains)["POSTROUTING"]), spec.ipMasq.bridge)
  {
    ghost var tp, up := TeardownsPlan(spec.bridge), UnmasqueradePlan(spec.ipMasq);
    e := TearDownBridges(h, spec.bridge);
    if e.Fail? {
      AbortedPrefix(old(h.log), h.log, tp, up, []);
      assert tp + up + [] == DeletePlan(spec);
      return;
    }
    if spec.ipMasq.enabled {
      e := Firewall.DeleteMasquerade(h, spec.ipMasq);
      if e.Fail? {
        AbortedWithin(old(h.log), h.log, tp, up, []);
        assert tp + up + [] == DeletePlan(spec);
        return;
      }
    }
    Appended(old(h.log), tp, up);
  }

  /** DeleteNetwork's loop over the bridges, stopping at the first bridge that fails. */
  method TearDownBridges(h: Host, bs: seq<Bridge>) returns (e: Outcome)
    modifies h`links, h`log
    ensures e.Pass? ==> h.log == old(h.log) + TeardownsPlan(bs)
    ensures e.Fail? ==> Aborted(old(h.log), h.log, TeardownsPlan(bs))
    ensures h.links.Keys <= old(h.links).Keys
    ensures e.Pass? ==> AllTornDown(h.links, bs)
  {
    e := Pass;
    for i := 0 to |bs|
      invariant e.Pass?
      invariant h.log == old(h.log) + TeardownsPlan(bs[..i])
      invariant h.links.Keys <= old(h.links).Keys
      invariant AllTornDown(h.links, bs[..i])
    {
      ghost var links := h.links;
      e := TearDownBridge(h, bs[i]);
      if e.Fail? {
        TeardownsAborted(old(h.log), h.log, bs, i);
        return;
      }
      StepsNext(old(h.log), bs, TeardownPlan, i);
      TornDownStep(links, h.links, bs, i);
    }
    StepsAll(bs, TeardownPlan);
    assert bs[..|bs|] == bs;
  }
}
