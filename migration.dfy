/**
 * The VirtualMachineInstance reconciler of
 * controllers/vm_migration_controller.go: after a live migration has
 * completed on this node, announce the virtual gateway address with a
 * gratuitous ARP on the bridge of every masquerading Multus network of the
 * virtual machine.
 */
module Migration {
  import opened Wrappers
  import opened Text
  import opened Seqs
  import opened Api
  import opened Host
  import opened Hostname
  import Firewall

  // ---------------------------------------------------------------------------
  // getNamespacedNetworkName

  /**
   * getNamespacedNetworkName: "namespace/name" names a network in that
   * namespace; any other name counts as a name in the empty namespace,
   * cut at its first slash.
   */
  function NamespacedNetworkName(networkName: string): NamespacedName
  {
    var parts := Split(networkName, '/');
    if |parts| == 2 then NamespacedName(parts[0], parts[1]) else NamespacedName("", parts[0])
  }

  /** A qualified name is read back as its namespace and name. */
  lemma QualifiedNetworkName(namespace: string, name: string)
    requires '/' !in namespace && '/' !in name
    ensures NamespacedNetworkName(namespace + "/" + name) == NamespacedName(namespace, name)
  {
    SplitAppend(namespace, name, '/');
    SplitNoSeparator(namespace, '/');
    SplitNoSeparator(name, '/');
    assert namespace + ['/'] + name == namespace + "/" + name;
  }

  /** A bare name stands for the network of that name in the empty namespace. */
  lemma BareNetworkName(name: string)
    requires '/' !in name
    ensures NamespacedNetworkName(name) == NamespacedName("", name)
  {
    SplitNoSeparator(name, '/');
  }

  /** A name with two slashes keeps only its first segment, as a name in the empty namespace. */
  lemma NestedNetworkName(a: string, b: string, c: string)
    requires '/' !in a && '/' !in b && '/' !in c
    ensures NamespacedNetworkName(a + "/" + b + "/" + c) == NamespacedName("", a)
  {
    SplitAppend(a + "/" + b, c, '/');
    SplitAppend(a, b, '/');
    SplitNoSeparator(a, '/');
    SplitNoSeparator(b, '/');
    SplitNoSeparator(c, '/');
    assert a + ['/'] + b == a + "/" + b;
    assert a + "/" + b + ['/'] + c == a + "/" + b + "/" + c;
  }

  // ---------------------------------------------------------------------------
  // The event filter

  /** migrationSuccessful: a migration state is present, completed and not failed. */
  function MigrationSuccessful(vmi: VirtualMachineInstance): bool
  {
    if vmi.migrationState.None? then false
    else vmi.migrationState.value.completed && !vmi.migrationState.value.failed
  }

  /**
   * filterVirtualMachineMigrationEvents: an update passes only between two
   * instances, when the migration has just become successful and this node,
   * whose name hostname reports, is its target.
   */
  function FilterMigrationEvent(e: UpdateEvent, hostname: Result<string>): (r: bool)
    ensures r <==>
      (e.objectNew.VmiObject? && e.objectOld.VmiObject? &&
       e.objectNew.vmi.migrationState.Some? &&
       e.objectNew.vmi.migrationState.value.completed && !e.objectNew.vmi.migrationState.value.failed &&
       !(e.objectOld.vmi.migrationState.Some? &&
         e.objectOld.vmi.migrationState.value.completed && !e.objectOld.vmi.migrationState.value.failed) &&
       hostname == Ok(e.objectNew.vmi.migrationState.value.targetNode))
  {
    if !e.objectNew.VmiObject? then false
    else if !e.objectOld.VmiObject? then false
    else
      var newSuccessful := MigrationSuccessful(e.objectNew.vmi);
      var oldSuccessful := MigrationSuccessful(e.objectOld.vmi);
      if !newSuccessful then false
      else if newSuccessful == oldSuccessful then false
      else if hostname.Err? then false
      else hostname.value == e.objectNew.vmi.migrationState.value.targetNode
  }

  /** Of two consecutive updates of one instance, at most one passes: no migration is announced twice. */
  lemma NoRepeatedAnnouncement(first: UpdateEvent, second: UpdateEvent, hostname: Result<string>)
    requires second.objectOld == first.objectNew
    ensures !(FilterMigrationEvent(first, hostname) && FilterMigrationEvent(second, hostname))
  {
    if FilterMigrationEvent(first, hostname) {
      assert MigrationSuccessful(second.objectOld.vmi);
    }
  }

  /** The watch events of an instance, by kind. */
  datatype WatchEvent =
    | CreateEvent(created: Object)
    | UpdateEvent(update: Api.UpdateEvent)
    | DeleteEvent(deleted: Object)
    | GenericEvent(generic: Object)

  /** The predicate SetupWithManager installs: only updates, and only those the filter passes. */
  function Admits(ev: WatchEvent, hostname: Result<string>): (r: bool)
    ensures r ==> ev.UpdateEvent? && FilterMigrationEvent(ev.update, hostname)
    ensures ev.UpdateEvent? && FilterMigrationEvent(ev.update, hostname) ==> r
  {
    match ev
    case CreateEvent(_) => false
    case UpdateEvent(u) => FilterMigrationEvent(u, hostname)
    case DeleteEvent(_) => false
    case GenericEvent(_) => false
  }

  // ---------------------------------------------------------------------------
  // Reconcile

  /** The announcement one VM network calls for: none for a pod network or a network without masquerading. */
  function Announcement(networks: map<NamespacedName, Network>, net: VmNetwork): seq<Gratuitous>
  {
    match net.multus
    case None => []
    case Some(name) =>
      var key := NamespacedNetworkName(name);
      if key in networks && networks[key].spec.ipMasq.enabled
      then [Gratuitous(Firewall.VirtualIpAddress, networks[key].spec.ipMasq.bridge)]
      else []
  }

  /** The announcements for the VM networks nets, in order. */
  function Announcements(networks: map<NamespacedName, Network>, nets: seq<VmNetwork>): seq<Gratuitous>
  {
    if |nets| == 0 then []
    else Announcements(networks, nets[..|nets| - 1]) + Announcement(networks, nets[|nets| - 1])
  }

  /** The calls that send the announcements gs. */
  function Sent(gs: seq<Gratuitous>): seq<Call>
  {
    if |gs| == 0 then [] else Sent(gs[..|gs| - 1]) + [ArpSent(gs[|gs| - 1].ip, gs[|gs| - 1].iface)]
  }

  /** Every Multus network the instance names exists. */
  predicate Resolvable(networks: map<NamespacedName, Network>, nets: seq<VmNetwork>)
  {
    forall i :: 0 <= i < |nets| && nets[i].multus.Some? ==> NamespacedNetworkName(nets[i].multus.value) in networks
  }

  lemma AnnouncementsNext(networks: map<NamespacedName, Network>, nets: seq<VmNetwork>, i: nat)
    requires i < |nets|
    ensures Announcements(networks, nets[..i + 1]) == Announcements(networks, nets[..i]) + Announcement(networks, nets[i])
  {
    assert nets[..i + 1][..i] == nets[..i];
  }

  /** The gratuitous ARPs and the log after one more network of the loop. */
  lemma AnnouncedNext(garps: seq<Gratuitous>, log: seq<Call>, networks: map<NamespacedName, Network>, nets: seq<VmNetwork>, i: nat)
    requires i < |nets|
    ensures garps + Announcements(networks, nets[..i]) + Announcement(networks, nets[i])
      == garps + Announcements(networks, nets[..i + 1])
    ensures log + Sent(Announcements(networks, nets[..i])) + Sent(Announcement(networks, nets[i]))
      == log + Sent(Announcements(networks, nets[..i + 1]))
  {
    var sent, one := Announcements(networks, nets[..i]), Announcement(networks, nets[i]);
    AnnouncementsNext(networks, nets, i);
    SentAppend(sent, one);
    AppendAssoc(garps, sent, one);
    AppendAssoc(log, Sent(sent), Sent(one));
  }

  /** Sending announcements one after the other is sending them together. */
  lemma {:induction false} SentAppend(gs: seq<Gratuitous>, more: seq<Gratuitous>)
    ensures Sent(gs + more) == Sent(gs) + Sent(more)
  {
    if |more| > 0 {
      var init := more[..|more| - 1];
      assert (gs + more)[..|gs + more| - 1] == gs + init;
      SentAppend(gs, init);
    } else {
      assert gs + more == gs;
    }
  }

  lemma SentOne(gs: seq<Gratuitous>, g: Gratuitous)
    ensures Sent(gs + [g]) == Sent(gs) + [ArpSent(g.ip, g.iface)]
  {
    assert (gs + [g])[..|gs|] == gs;
  }

  /** Sent sends each announcement, in order, and nothing else. */
  lemma {:induction false} SentSpec(gs: seq<Gratuitous>)
    ensures |Sent(gs)| == |gs|
    ensures forall i :: 0 <= i < |gs| ==> Sent(gs)[i] == ArpSent(gs[i].ip, gs[i].iface)
  {
    if |gs| > 0 {
      SentSpec(gs[..|gs| - 1]);
    }
  }

  /**
   * Every announcement is of the virtual gateway address, on the bridge of
   * a masquerading Multus network of the instance; and each such network
   * is announced.
   */
  lemma {:induction false} AnnouncementsSpec(networks: map<NamespacedName, Network>, nets: seq<VmNetwork>)
    ensures |Announcements(networks, nets)| <= |nets|
    ensures forall g :: g in Announcements(networks, nets) ==>
      g.ip == Firewall.VirtualIpAddress &&
      exists i :: 0 <= i < |nets| && nets[i].multus.Some? &&
        var key := NamespacedNetworkName(nets[i].multus.value);
        key in networks && networks[key].spec.ipMasq.enabled && networks[key].spec.ipMasq.bridge == g.iface
    ensures forall i ::
      (0 <= i < |nets| && nets[i].multus.Some? &&
       NamespacedNetworkName(nets[i].multus.value) in networks &&
       networks[NamespacedNetworkName(nets[i].multus.value)].spec.ipMasq.enabled) ==>
      Gratuitous(Firewall.VirtualIpAddress, networks[NamespacedNetworkName(nets[i].multus.value)].spec.ipMasq.bridge)
        in Announcements(networks, nets)
  {
    if |nets| > 0 {
      var init := nets[..|nets| - 1];
      var last := nets[|nets| - 1];
      AnnouncementsSpec(networks, init);
      assert Announcements(networks, nets) == Announcements(networks, init) + Announcement(networks, last);
      forall g | g in Announcements(networks, nets)
        ensures g.ip == Firewall.VirtualIpAddress &&
          exists i :: 0 <= i < |nets| && nets[i].multus.Some? &&
            var key := NamespacedNetworkName(nets[i].multus.value);
            key in networks && networks[key].spec.ipMasq.enabled && networks[key].spec.ipMasq.bridge == g.iface
      {
        if g in Announcements(networks, init) {
          var i :| 0 <= i < |init| && init[i].multus.Some? &&
            var key := NamespacedNetworkName(init[i].multus.value);
            key in networks && networks[key].spec.ipMasq.enabled && networks[key].spec.ipMasq.bridge == g.iface;
          assert nets[i] == init[i];
        } else {
          assert g in Announcement(networks, last);
          assert nets[|nets| - 1] == last;
        }
      }
      forall i | 0 <= i < |nets| && nets[i].multus.Some? &&
        NamespacedNetworkName(nets[i].multus.value) in networks &&
        networks[NamespacedNetworkName(nets[i].multus.value)].spec.ipMasq.enabled
        ensures Gratuitous(Firewall.VirtualIpAddress, networks[NamespacedNetworkName(nets[i].multus.value)].spec.ipMasq.bridge)
          in Announcements(networks, nets)
      {
        if i < |init| {
          assert init[i] == nets[i];
        }
      }
    }
  }

  /**
   * Reconcile: read the instance and, network by network, skip pod
   * networks, read the Multus network (a missing one is an error), skip it
   * unless it masquerades, and announce the gateway on its bridge. The
   * first failure stops the run after the announcements already sent.
   */
  method Reconcile(h: Host, key: NamespacedName) returns (e: Outcome)
    modifies h`garps, h`log
    ensures key !in h.vmis ==> e.Fail? && unchanged(h)
    ensures e.Pass? ==>
      (key in h.vmis && Resolvable(h.networks, h.vmis[key].networks) &&
       h.garps == old(h.garps) + Announcements(h.networks, h.vmis[key].networks) &&
       h.log == old(h.log) + Sent(Announcements(h.networks, h.vmis[key].networks)))
    ensures e.Fail? && key in h.vmis ==>
      exists i :: 0 <= i <= |h.vmis[key].networks| &&
        h.garps == old(h.garps) + Announcements(h.networks, h.vmis[key].networks[..i]) &&
        h.log == old(h.log) + Sent(Announcements(h.networks, h.vmis[key].networks[..i]))
  {
    var got := h.GetVmi(key);
    if !got.Found? {
      if key in h.vmis {
        assert Announcements(h.networks, h.vmis[key].networks[..0]) == [];
        assert h.garps == old(h.garps) + [] && h.log == old(h.log) + [];
      }
      return Fail(Foreign("client.Get"));
    }
    ghost var k;
    e, k := Announce(h, got.value.networks);
    assert got.value.networks[..|got.value.networks|] == got.value.networks;
  }

  /** The loop of Reconcile over the instance's networks; k counts the networks it got through. */
  method Announce(h: Host, nets: seq<VmNetwork>) returns (e: Outcome, ghost k: nat)
    modifies h`garps, h`log
    ensures k <= |nets|
    ensures h.garps == old(h.garps) + Announcements(h.networks, nets[..k])
    ensures h.log == old(h.log) + Sent(Announcements(h.networks, nets[..k]))
    ensures e.Pass? ==> k == |nets| && Resolvable(h.networks, nets)
  {
    var i := 0;
    while i < |nets|
      invariant i <= |nets|
      invariant h.garps == old(h.garps) + Announcements(h.networks, nets[..i])
      invariant h.log == old(h.log) + Sent(Announcements(h.networks, nets[..i]))
      invariant Resolvable(h.networks, nets[..i])
    {
      e := AnnounceOne(h, nets[i]);
      if e.Fail? {
        return e, i;
      }
      AnnouncedNext(old(h.garps), old(h.log), h.networks, nets, i);
      ResolvableNext(h.networks, nets, i);
      i := i + 1;
    }
    assert nets[..|nets|] == nets;
    return Pass, i;
  }

  /** One network of the loop: skip a pod network, read the Multus network, announce when it masquerades. */
  method AnnounceOne(h: Host, net: VmNetwork) returns (e: Outcome)
    modifies h`garps, h`log
    ensures e.Pass? ==> net.multus.Some? ==> NamespacedNetworkName(net.multus.value) in h.networks
    ensures e.Pass? ==> h.garps == old(h.garps) + Announcement(h.networks, net)
    ensures e.Pass? ==> h.log == old(h.log) + Sent(Announcement(h.networks, net))
    ensures e.Fail? ==> h.garps == old(h.garps) && h.log == old(h.log)
  {
    if net.multus.None? {
      return Pass;
    }
    var network := h.GetNetwork(NamespacedNetworkName(net.multus.value));
    if !network.Found? {
      return Fail(Foreign("client.Get"));
    }
    var masq := network.value.spec.ipMasq;
    if !masq.enabled {
      return Pass;
    }
    var ok := h.Garp(Firewall.VirtualIpAddress, masq.bridge);
    if !ok {
      return Fail(Foreign("arping.GratuitousArpOverIfaceByName"));
    }
    SentOne([], Gratuitous(Firewall.VirtualIpAddress, masq.bridge));
    return Pass;
  }

  lemma ResolvableNext(networks: map<NamespacedName, Network>, nets: seq<VmNetwork>, k: nat)
    requires k < |nets| && Resolvable(networks, nets[..k])
    requires nets[k].multus.Some? ==> NamespacedNetworkName(nets[k].multus.value) in networks
    ensures Resolvable(networks, nets[..k + 1])
  {
    assert forall i :: 0 <= i < k ==> nets[..k + 1][i] == nets[..k][i];
  }
}
