/**
 * The node the controllers run on, as one abstract state: the kernel's links
 * and routes, the ebtables FORWARD chain, the iptables nat table, the
 * sysctls, the gratuitous ARPs sent, and the cluster-store objects the
 * controllers read and write. Every foreign call of the modelled code
 * (netlink, sysctl, the ebtables and iptables commands, arping, the
 * Kubernetes client) is a method of Host. Any of them may fail; a failed
 * call leaves the state as it was unless its contract says otherwise.
 *
 * The ghost log records, in order, the completed steps that the appliers and
 * reconcilers sequence, so that orderings and early exits can be stated.
 */
module Host {
  import opened Wrappers
  import opened Text
  import opened Seqs
  import opened Api

  datatype LinkKind = BridgeKind | VlanKind | OtherKind

  /** A network interface. master is the bridge it is enslaved to; parent the lower device of a VLAN. */
  datatype Link = Link(
    kind: LinkKind, index: int, mtu: int, up: bool,
    master: Option<string>, parent: Option<string>, vlanId: int)

  type IP = seq<bv8>

  datatype IpNet = IpNet(ip: IP, mask: IP)

  datatype Scope = Universe | LinkScope

  /** A kernel route; dst None is the default route. */
  datatype KernelRoute = KernelRoute(
    dst: Option<IpNet>, gw: Option<IP>, linkIndex: int, scope: Scope, src: Option<IP>)

  /** The outcome of a lookup: found, reported as not found, or some other failure. */
  datatype Lookup<T> = Found(value: T) | Missing | Failed(error: Error)

  /** The outcome of an add: done, refused with EEXIST, or some other failure. */
  datatype AddResult = Added | Exists | AddFailed(error: Error)

  /** A gratuitous ARP announcing ip on iface. */
  datatype Gratuitous = Gratuitous(ip: string, iface: string)

  /** A completed step, as the ghost log records it. */
  datatype Call =
    | SetSysctl(sysctl: string, value: string)
    | EbtRuleEnsured(rule: seq<string>)
    | EbtRulesPurged(device: string)
    | NatRulesEnsured(name: string, source: string, ignore: seq<string>, egress: string)
    | NatChainPurged(name: string)
    | ArpSent(ip: string, iface: string)
    | BridgeEnsured(name: string, mtu: int)
    | VlanEnsured(iface: string, vlan: int, mtu: int)
    | Enslaved(link: string, master: string)
    | PortDeleted(name: string)
    | BridgeRemoved(name: string)
    | RouteEnsured(route: Route)
    | Updated(key: NamespacedName, obj: NetworkAttachment)
    | Created(key: NamespacedName, obj: NetworkAttachment)

  /** The links left after deleting name: its VLANs go with it and its ports lose their master. */
  function Unlinked(links: map<string, Link>, name: string): (r: map<string, Link>)
    ensures name !in r
    ensures forall n :: n in r ==> n in links && r[n].master != Some(name)
  {
    map n | n in links && n != name && links[n].parent != Some(name) ::
      if links[n].master == Some(name) then links[n].(master := None) else links[n]
  }

  /** The FORWARD chain after an ebtables command; only insertion into filter/FORWARD is modelled. */
  function EbtablesApplied(forward: seq<string>, args: seq<string>): seq<string>
    requires |args| >= 4
  {
    [Join(args[4..], " ")] + forward
  }

  predicate IsForwardInsert(args: seq<string>)
  {
    |args| >= 4 && args[..4] == ["-t", "filter", "-I", "FORWARD"]
  }

  /** The tokens of an ebtables listing line. */
  function Tokens(line: string): seq<string>
  {
    Split(TrimSpace(line), ' ')
  }

  /** The line carries "--logical-out device". */
  predicate OutputsTo(line: string, device: string)
  {
    var t := Tokens(line);
    exists i :: 0 <= i < |t| - 1 && t[i] == "--logical-out" && t[i + 1] == device
  }

  function WithoutDevice(forward: seq<string>, device: string): (r: seq<string>)
    ensures forall l :: l in r <==> l in forward && !OutputsTo(l, device)
  {
    if |forward| == 0 then []
    else (if OutputsTo(forward[0], device) then [] else [forward[0]]) + WithoutDevice(forward[1..], device)
  }

  /** What iptables -S prints for a chain: its policy line, then one -A line per rule. */
  function Listing(chain: string, rules: seq<seq<string>>): (r: seq<string>)
    ensures |r| == |rules| + 1
  {
    ["-P " + chain + " ACCEPT"] + RuleLines(chain, rules)
  }

  function RuleLines(chain: string, rules: seq<seq<string>>): (r: seq<string>)
    ensures |r| == |rules|
    ensures forall i :: 0 <= i < |rules| ==> r[i] == RuleLine(chain, rules[i])
  {
    if |rules| == 0 then [] else [RuleLine(chain, rules[0])] + RuleLines(chain, rules[1..])
  }

  /** The -A line of one rule. */
  function RuleLine(chain: string, rule: seq<string>): string
  {
    "-A " + chain + " " + Join(rule, " ")
  }

  /** Some rule outside chain jumps to it, so the kernel refuses to delete it. */
  predicate Referenced(chains: map<string, seq<seq<string>>>, chain: string)
  {
    exists c, i, k :: c in chains && c != chain && 0 <= i < |chains[c]| && 0 <= k < |chains[c][i]| - 1
      && chains[c][i][k] == "-j" && chains[c][i][k + 1] == chain
  }

  /**
   * What an Update stores: Kubernetes drops an object marked for deletion
   * once its last finalizer is gone.
   */
  function Persisted(store: map<NamespacedName, NetworkAttachment>, obj: NetworkAttachment)
    : map<NamespacedName, NetworkAttachment>
  {
    if obj.meta.deleting && |obj.meta.finalizers| == 0 then store - {Key(obj.meta)}
    else store[Key(obj.meta) := obj]
  }

  /** Every stored attachment sits under its own namespace and name, as the API server keeps it. */
  predicate Keyed(store: map<NamespacedName, NetworkAttachment>)
  {
    forall k :: k in store ==> Key(store[k].meta) == k
  }

  lemma PersistedKeyed(store: map<NamespacedName, NetworkAttachment>, obj: NetworkAttachment)
    requires Keyed(store)
    ensures Keyed(Persisted(store, obj))
  {
  }

  /** The names in a set, each once, in an order the model leaves open. */
  method ListOf(s: set<string>) returns (r: seq<string>)
    ensures NoDuplicates(r)
    ensures forall x :: x in r <==> x in s
  {
    r := [];
    var rest := s;
    while rest != {}
      invariant rest <= s
      invariant NoDuplicates(r)
      invariant forall x :: x in r <==> x in s && x !in rest
      decreases |rest|
    {
      var y :| y in rest;
      r := r + [y];
      rest := rest - {y};
    }
  }

  class Host {
    var links: map<string, Link>
    var routes: seq<KernelRoute>
    var forward: seq<string>
    var chains: map<string, seq<seq<string>>>
    var sysctls: map<string, string>
    var garps: seq<Gratuitous>
    var attachments: map<NamespacedName, NetworkAttachment>
    var networks: map<NamespacedName, Network>
    var nodes: seq<ClusterNode>
    var vmis: map<NamespacedName, VirtualMachineInstance>
    ghost var log: seq<Call>

    /** The process environment and what os.Hostname reports. */
    const env: map<string, string>
    const osHostname: Result<string>
    /** net.ParseIP */
    const parseIP: string -> Option<IP>
    /** net.ParseCIDR: the address and the network */
    const parseCIDR: string -> Option<(IP, IpNet)>
    /** json.Unmarshal of an attachment spec */
    const parseJson: string -> Option<NetworkAttachmentSpec>
    /** labels.Selector.Matches after metav1.LabelSelectorAsSelector */
    const matches: (LabelSelector, map<string, string>) -> bool
    /** r3labs/diff.Diff of two attachment specs */
    const diff: (NetworkAttachmentSpec, NetworkAttachmentSpec) -> Result<seq<Change>>

    constructor (
      env: map<string, string>, osHostname: Result<string>,
      parseIP: string -> Option<IP>, parseCIDR: string -> Option<(IP, IpNet)>,
      parseJson: string -> Option<NetworkAttachmentSpec>,
      matches: (LabelSelector, map<string, string>) -> bool,
      diff: (NetworkAttachmentSpec, NetworkAttachmentSpec) -> Result<seq<Change>>)
      ensures this.env == env && this.osHostname == osHostname
      ensures this.parseIP == parseIP && this.parseCIDR == parseCIDR && this.parseJson == parseJson
      ensures this.matches == matches && this.diff == diff
      ensures links == map[] && routes == [] && forward == [] && chains == map["POSTROUTING" := []]
      ensures sysctls == map[] && garps == [] && log == []
      ensures attachments == map[] && networks == map[] && nodes == [] && vmis == map[]
    {
      this.env, this.osHostname := env, osHostname;
      this.parseIP, this.parseCIDR, this.parseJson := parseIP, parseCIDR, parseJson;
      this.matches, this.diff := matches, diff;
      links, routes, forward, chains := map[], [], [], map["POSTROUTING" := []];
      sysctls, garps, log := map[], [], [];
      attachments, networks, nodes, vmis := map[], map[], [], map[];
    }

    // -------------------------------------------------------------------------
    // netlink: links

    method LinkByName(name: string) returns (r: Lookup<Link>)
      ensures r.Found? ==> name in links && r.value == links[name]
      ensures r.Missing? ==> name !in links
      ensures r.Failed? || r == (if name in links then Found(links[name]) else Missing)
    {
      var fault: bool := *;
      if fault {
        r := Failed(Foreign("netlink.LinkByName"));
      } else if name in links {
        r := Found(links[name]);
      } else {
        r := Missing;
      }
    }

    /** The kernel assigns the index; an existing name is refused with EEXIST. */
    method LinkAdd(name: string, link: Link) returns (r: AddResult)
      modifies this`links
      ensures name in old(links) ==> !r.Added?
      ensures r.Exists? ==> name in old(links)
      ensures r.Added? ==> name in links && links == old(links)[name := link.(index := links[name].index)]
      ensures !r.Added? ==> links == old(links)
    {
      var fault: bool := *;
      if name in links {
        r := Exists;
      } else if fault {
        r := AddFailed(Foreign("netlink.LinkAdd"));
      } else {
        var index: int := *;
        links := links[name := link.(index := index)];
        r := Added;
      }
    }

    method LinkSetUp(name: string) returns (ok: bool)
      modifies this`links
      ensures ok ==> name in old(links) && links == old(links)[name := old(links)[name].(up := true)]
      ensures !ok ==> links == old(links)
    {
      ok := *;
      if ok && name in links {
        links := links[name := links[name].(up := true)];
      } else {
        ok := false;
      }
    }

    method LinkSetMaster(name: string, master: string) returns (ok: bool)
      modifies this`links, this`log
      ensures ok ==> name in old(links) && master in old(links) && old(links)[master].kind == BridgeKind
      ensures ok ==> links == old(links)[name := old(links)[name].(master := Some(master))]
      ensures ok ==> log == old(log) + [Enslaved(name, master)]
      ensures !ok ==> links == old(links) && log == old(log)
    {
      ok := *;
      if ok && name in links && master in links && links[master].kind == BridgeKind {
        links := links[name := links[name].(master := Some(master))];
        log := log + [Enslaved(name, master)];
      } else {
        ok := false;
      }
    }

    method LinkSetNoMaster(name: string) returns (ok: bool)
      modifies this`links
      ensures ok ==> name in old(links) && links == old(links)[name := old(links)[name].(master := None)]
      ensures !ok ==> links == old(links)
    {
      ok := *;
      if ok && name in links {
        links := links[name := links[name].(master := None)];
      } else {
        ok := false;
      }
    }

    method LinkDel(name: string) returns (ok: bool)
      modifies this`links
      ensures ok ==> name in old(links) && links == Unlinked(old(links), name)
      ensures !ok ==> links == old(links)
    {
      ok := *;
      if ok && name in links {
        links := Unlinked(links, name);
      } else {
        ok := false;
      }
    }

    /**
     * The entries of /sys/class/net/<name>/brif: the links enslaved to the
     * bridge, each once. The directory exists only for a bridge.
     */
    method BridgeListPorts(name: string) returns (r: Result<seq<string>>)
      ensures r.Ok? ==> name in links && links[name].kind == BridgeKind
      ensures r.Ok? ==> NoDuplicates(r.value)
      ensures r.Ok? ==> forall p :: p in r.value <==> p in links && links[p].master == Some(name)
    {
      var fault: bool := *;
      if fault || name !in links || links[name].kind != BridgeKind {
        return Err(Foreign("os.ReadDir"));
      }
      var ports := ListOf(set p | p in links && links[p].master == Some(name));
      r := Ok(ports);
    }

    /** net.InterfaceByIndex; None stands for its error. */
    method InterfaceByIndex(index: int) returns (r: Option<string>)
      ensures r.Some? ==> r.value in links && links[r.value].index == index
    {
      var fault: bool := *;
      if !fault && exists n :: n in links && links[n].index == index {
        var n :| n in links && links[n].index == index;
        r := Some(n);
      } else {
        r := None;
      }
    }

    // -------------------------------------------------------------------------
    // netlink: routes

    method RouteList() returns (r: Result<seq<KernelRoute>>)
      ensures r.Ok? ==> r.value == routes
    {
      var fault: bool := *;
      r := if fault then Err(Foreign("netlink.RouteList")) else Ok(routes);
    }

    /** A route to an existing destination is refused with EEXIST. */
    method RouteAdd(route: KernelRoute) returns (r: AddResult)
      modifies this`routes
      ensures (exists i :: 0 <= i < |old(routes)| && old(routes)[i].dst == route.dst) ==> !r.Added?
      ensures r.Exists? ==> exists i :: 0 <= i < |old(routes)| && old(routes)[i].dst == route.dst
      ensures r.Added? ==> routes == old(routes) + [route]
      ensures !r.Added? ==> routes == old(routes)
    {
      var fault: bool := *;
      if exists i :: 0 <= i < |routes| && routes[i].dst == route.dst {
        r := Exists;
      } else if fault {
        r := AddFailed(Foreign("netlink.RouteAdd"));
      } else {
        routes := routes + [route];
        r := Added;
      }
    }

    /** netlink.RouteGet: the kernel's route selection is not modelled, so any answer is possible. */
    method RouteGet(ip: IP) returns (r: seq<KernelRoute>)
    {
      r := *;
    }

    // -------------------------------------------------------------------------
    // ebtables

    /** ebtables --list FORWARD */
    method ListForward() returns (r: Result<string>)
      ensures r.Ok? ==> r.value == Join(forward, "\n")
    {
      var fault: bool := *;
      r := if fault then Err(Foreign("ebtables --list")) else Ok(Join(forward, "\n"));
    }

    /** Runs the ebtables command with args; only an insert into filter/FORWARD can succeed here. */
    method Ebtables(args: seq<string>) returns (ok: bool)
      modifies this`forward
      ensures ok ==> IsForwardInsert(args) && forward == EbtablesApplied(old(forward), args)
      ensures !ok ==> forward == old(forward)
    {
      ok := *;
      if ok && IsForwardInsert(args) {
        forward := EbtablesApplied(forward, args);
      } else {
        ok := false;
      }
    }

    /** ebtables.DeleteRuleByDevice: every FORWARD rule whose logical output is device goes. */
    method DeleteRuleByDevice(device: string) returns (ok: bool)
      modifies this`forward, this`log
      ensures ok ==> forward == WithoutDevice(old(forward), device)
      ensures ok ==> log == old(log) + [EbtRulesPurged(device)]
      ensures !ok ==> forward == old(forward) && log == old(log)
    {
      ok := *;
      if ok {
        forward := WithoutDevice(forward, device);
        log := log + [EbtRulesPurged(device)];
      }
    }

    // -------------------------------------------------------------------------
    // iptables, table nat

    /** iptables.NewWithProtocol: locating the iptables command may fail. */
    method IptablesHandle() returns (ok: bool)
    {
      ok := *;
    }

    /**
     * ipt.Exists. The source drops its error, so a failed check reads as
     * "absent" whatever the chain holds; answered says whether the check
     * answered.
     */
    method IptExists(chain: string, rule: seq<string>) returns (r: bool, ghost answered: bool)
      ensures r ==> chain in chains && rule in chains[chain]
      ensures answered ==> (r <==> chain in chains && rule in chains[chain])
      ensures !answered ==> !r
    {
      var fault: bool := *;
      r := !fault && chain in chains && rule in chains[chain];
      answered := !fault;
    }

    /** ipt.Insert at position 1. */
    method IptInsert(chain: string, rule: seq<string>) returns (ok: bool)
      modifies this`chains
      ensures ok ==> chain in old(chains) && chains == old(chains)[chain := [rule] + old(chains)[chain]]
      ensures !ok ==> chains == old(chains)
    {
      ok := *;
      if ok && chain in chains {
        chains := chains[chain := [rule] + chains[chain]];
      } else {
        ok := false;
      }
    }

    /** ipt.NewChain; the source ignores its error, so it returns nothing. */
    method IptNewChain(chain: string)
      modifies this`chains
      ensures chain in old(chains) ==> chains == old(chains)
      ensures chains == old(chains) || chains == old(chains)[chain := []]
    {
      var fault: bool := *;
      if !fault && chain !in chains {
        chains := chains[chain := []];
      }
    }

    /** ipt.List: the lines of iptables -S for the chain. */
    method IptList(chain: string) returns (r: Result<seq<string>>)
      ensures r.Ok? ==> chain in chains && r.value == Listing(chain, chains[chain])
    {
      var fault: bool := *;
      if fault || chain !in chains {
        r := Err(Foreign("iptables -S"));
      } else {
        r := Ok(Listing(chain, chains[chain]));
      }
    }

    /** ipt.DeleteIfExists: the first equal rule goes; a missing chain is an error. */
    method IptDeleteIfExists(chain: string, rule: seq<string>) returns (ok: bool)
      modifies this`chains
      ensures ok ==> chain in old(chains) && chains == old(chains)[chain := RemoveFirst(old(chains)[chain], rule)]
      ensures !ok ==> chains == old(chains)
    {
      ok := *;
      if ok && chain in chains {
        chains := chains[chain := RemoveFirst(chains[chain], rule)];
      } else {
        ok := false;
      }
    }

    /**
     * ipt.ClearAndDeleteChain: nothing to do for a missing chain; otherwise
     * the chain is flushed, then deleted unless a rule elsewhere still jumps to it.
     */
    method IptClearAndDeleteChain(chain: string) returns (ok: bool)
      modifies this`chains
      ensures ok ==> chains == old(chains) - {chain}
      ensures ok && chain in old(chains) ==> !Referenced(old(chains), chain)
      ensures !ok ==> chains == old(chains) || (chain in old(chains) && chains == old(chains)[chain := []])
    {
      var fault: bool := *;
      if fault {
        ok := false;
      } else if chain !in chains {
        ok := true;
      } else if Referenced(chains, chain) {
        chains := chains[chain := []];
        ok := false;
      } else {
        chains := chains - {chain};
        ok := true;
      }
    }

    // -------------------------------------------------------------------------
    // sysctl and arping

    method Sysctl(key: string, value: string) returns (ok: bool)
      modifies this`sysctls, this`log
      ensures ok ==> sysctls == old(sysctls)[key := value] && log == old(log) + [SetSysctl(key, value)]
      ensures !ok ==> sysctls == old(sysctls) && log == old(log)
    {
      ok := *;
      if ok {
        sysctls := sysctls[key := value];
        log := log + [SetSysctl(key, value)];
      }
    }

    /** arping.GratuitousArpOverIfaceByName: the interface must exist. */
    method Garp(ip: string, iface: string) returns (ok: bool)
      modifies this`garps, this`log
      ensures ok ==> iface in links && garps == old(garps) + [Gratuitous(ip, iface)]
      ensures ok ==> log == old(log) + [ArpSent(ip, iface)]
      ensures !ok ==> garps == old(garps) && log == old(log)
    {
      ok := *;
      if ok && iface in links {
        garps := garps + [Gratuitous(ip, iface)];
        log := log + [ArpSent(ip, iface)];
      } else {
        ok := false;
      }
    }

    // -------------------------------------------------------------------------
    // the cluster store

    method GetAttachment(key: NamespacedName) returns (r: Lookup<NetworkAttachment>)
      ensures r.Found? ==> key in attachments && r.value == attachments[key]
      ensures r.Missing? ==> key !in attachments
      ensures r.Failed? || r == (if key in attachments then Found(attachments[key]) else Missing)
    {
      var fault: bool := *;
      if fault {
        r := Failed(Foreign("client.Get"));
      } else if key in attachments {
        r := Found(attachments[key]);
      } else {
        r := Missing;
      }
    }

    method UpdateAttachment(obj: NetworkAttachment) returns (ok: bool)
      modifies this`attachments, this`log
      ensures ok ==> Key(obj.meta) in old(attachments)
      ensures ok ==> attachments == Persisted(old(attachments), obj)
      ensures ok ==> log == old(log) + [Updated(Key(obj.meta), obj)]
      ensures !ok ==> attachments == old(attachments) && log == old(log)
    {
      ok := *;
      if ok && Key(obj.meta) in attachments {
        attachments := Persisted(attachments, obj);
        log := log + [Updated(Key(obj.meta), obj)];
      } else {
        ok := false;
      }
    }

    method CreateAttachment(obj: NetworkAttachment) returns (ok: bool)
      modifies this`attachments, this`log
      ensures ok ==> Key(obj.meta) !in old(attachments)
      ensures ok ==> attachments == old(attachments)[Key(obj.meta) := obj]
      ensures ok ==> log == old(log) + [Created(Key(obj.meta), obj)]
      ensures !ok ==> attachments == old(attachments) && log == old(log)
    {
      ok := *;
      if ok && Key(obj.meta) !in attachments {
        attachments := attachments[Key(obj.meta) := obj];
        log := log + [Created(Key(obj.meta), obj)];
      } else {
        ok := false;
      }
    }

    method GetNetwork(key: NamespacedName) returns (r: Lookup<Network>)
      ensures r.Found? ==> key in networks && r.value == networks[key]
      ensures r.Missing? ==> key !in networks
      ensures r.Failed? || r == (if key in networks then Found(networks[key]) else Missing)
    {
      var fault: bool := *;
      if fault {
        r := Failed(Foreign("client.Get"));
      } else if key in networks {
        r := Found(networks[key]);
      } else {
        r := Missing;
      }
    }

    method ListNodes() returns (r: Result<seq<ClusterNode>>)
      ensures r.Ok? ==> r.value == nodes
    {
      var fault: bool := *;
      r := if fault then Err(Foreign("client.List")) else Ok(nodes);
    }

    method GetVmi(key: NamespacedName) returns (r: Lookup<VirtualMachineInstance>)
      ensures r.Found? ==> key in vmis && r.value == vmis[key]
      ensures r.Missing? ==> key !in vmis
      ensures r.Failed? || r == (if key in vmis then Found(vmis[key]) else Missing)
    {
      var fault: bool := *;
      if fault {
        r := Failed(Foreign("client.Get"));
      } else if key in vmis {
        r := Found(vmis[key]);
      } else {
        r := Missing;
      }
    }
  }
}
