/**
 * pkg/bridge: Linux bridges and the VLAN interfaces enslaved to them. A
 * bridge's own ports are named after their parent interface and VLAN id;
 * Remove refuses to delete a bridge that still has ports other than its
 * own, and DeletePort deletes VLAN interfaces only.
 */
module LinuxBridge {
  import opened Wrappers
  import opened Text
  import opened Seqs
  import opened Api
  import opened Host

  /** fmt.Sprintf("%s.%d", iface, vlanId): the name of a VLAN interface. */
  function VlanName(iface: string, vlanId: int): string
  {
    iface + "." + IntToString(vlanId)
  }

  /** The name Remove gives one of the bridge's own ports: with the VLAN suffix only for a positive VLAN id. */
  function OwnPortName(port: Port): string
  {
    if port.vlan > 0 then VlanName(port.name, port.vlan) else port.name
  }

  function OwnPortNames(ports: seq<Port>): (r: seq<string>)
    ensures |r| == |ports|
    ensures forall i :: 0 <= i < |ports| ==> r[i] == OwnPortName(ports[i])
  {
    if |ports| == 0 then [] else OwnPortNames(ports[..|ports| - 1]) + [OwnPortName(ports[|ports| - 1])]
  }

  /**
   * What removeElement leaves: s when value is absent, otherwise s with its
   * first occurrence of value overwritten by the last element and the last
   * position cut off.
   */
  function SwapRemoved(s: seq<string>, value: string): seq<string>
  {
    if value !in s then s
    else s[FirstIndex(s, value) := s[|s| - 1]][..|s| - 1]
  }

  /** The ports Remove still finds after taking away each own port in turn. */
  function Leftover(ports: seq<string>, own: seq<string>): seq<string>
  {
    if |own| == 0 then ports else SwapRemoved(Leftover(ports, own[..|own| - 1]), own[|own| - 1])
  }

  /** A bridge as Create adds it; the kernel assigns the index. */
  function NewBridge(mtu: int): Link
  {
    Link(BridgeKind, 0, mtu, false, None, None, 0)
  }

  /** A VLAN interface as AddVlan adds it. */
  function NewVlan(iface: string, vlanId: int, mtu: int): Link
  {
    Link(VlanKind, 0, mtu, false, None, Some(iface), vlanId)
  }

  /** The links after adding created under name unless the name exists (EEXIST), then setting it up. */
  function Raised(links: map<string, Link>, name: string, created: Link): map<string, Link>
  {
    links[name := (if name in links then links[name] else created).(up := true)]
  }

  /**
   * removeElement on the first n cells of a: the first cell holding value
   * gets the last of the n values and the length drops by one.
   */
  method RemoveElement(a: array<string>, n: nat, value: string) returns (m: nat)
    requires n <= a.Length
    modifies a
    ensures m <= n
    ensures a[..m] == SwapRemoved(old(a[..n]), value)
    ensures a[n..] == old(a[n..])
  {
    ghost var s := a[..n];
    var idx := -1;
    for i := 0 to n
      invariant idx == -1 && value !in a[..i]
    {
      if a[i] == value {
        idx := i;
        assert a[..i] == s[..i];
        break;
      }
    }
    if idx < 0 {
      assert a[..n] == s;
      return n;
    }
    FirstIndexUnique(s, value, idx);
    a[idx] := a[n - 1];
    assert a[..n] == s[idx := s[n - 1]];
    return n - 1;
  }

  /**
   * Bridge.Create: add the bridge, accept EEXIST, set it up. An existing
   * link of that name is kept as it is, whatever its kind.
   */
  method Create(h: Host, name: string, mtu: int) returns (e: Outcome)
    modifies h`links, h`log
    ensures e.Pass? ==> name in h.links && h.links == Raised(old(h.links), name, NewBridge(mtu).(index := h.links[name].index))
    ensures e.Pass? ==> h.log == old(h.log) + [BridgeEnsured(name, mtu)]
    ensures e.Fail? ==> h.log == old(h.log)
    ensures e.Fail? && name in old(h.links) ==> h.links == old(h.links)
    ensures old(h.links).Keys <= h.links.Keys
  {
    var added := h.LinkAdd(name, NewBridge(mtu));
    if added.AddFailed? {
      return Fail(added.error);
    }
    ghost var index := h.links[name].index;
    var ok := h.LinkSetUp(name);
    if !ok {
      return Fail(Foreign("netlink.LinkSetUp"));
    }
    h.log := h.log + [BridgeEnsured(name, mtu)];
    return Pass;
  }

  /**
   * Bridge.Remove: a missing bridge is already removed. Otherwise list its
   * ports, take away the bridge's own ports, and delete the bridge only when
   * none is left.
   */
  method Remove(h: Host, bridge: Bridge) returns (e: Outcome)
    modifies h`links, h`log
    ensures e.Pass? ==> h.log == old(h.log) + [BridgeRemoved(bridge.name)]
    ensures e.Pass? && bridge.name !in old(h.links) ==> h.links == old(h.links)
    ensures bridge.name !in old(h.links) ==> e.Pass? || e == Fail(Foreign("netlink.LinkByName"))
    ensures e.Pass? && bridge.name in old(h.links) ==>
      old(h.links)[bridge.name].kind == BridgeKind && h.links == Unlinked(old(h.links), bridge.name)
    ensures e.Pass? && bridge.name in old(h.links) ==> forall p ::
      p in old(h.links) && old(h.links)[p].master == Some(bridge.name) ==> p in OwnPortNames(bridge.ports)
    ensures e.Fail? ==> h.links == old(h.links) && h.log == old(h.log)
    ensures e.Fail? && e.error.StillAttached? ==> forall p :: p in e.error.ports <==>
      p in old(h.links) && old(h.links)[p].master == Some(bridge.name) && p !in OwnPortNames(bridge.ports)
  {
    var br := h.LinkByName(bridge.name);
    if br.Missing? {
      h.log := h.log + [BridgeRemoved(bridge.name)];
      return Pass;
    }
    if br.Failed? {
      return Fail(Foreign("netlink.LinkByName"));
    }
    var listed := h.BridgeListPorts(bridge.name);
    if listed.Err? {
      return Fail(Foreign("unable to find bridge path"));
    }
    var ports := listed.value;
    ghost var own := OwnPortNames(bridge.ports);
    var rest := ports;
    if |ports| > 0 {
      rest := RemoveOwnPorts(ports, bridge.ports);
    }
    LeftoverMembers(ports, own);
    assert |rest| > 0 ==> rest == Leftover(ports, own);
    assert |rest| == 0 ==> forall p :: p in ports ==> p in own;
    if |rest| > 0 {
      return Fail(StillAttached(rest));
    }
    var ok := h.LinkDel(bridge.name);
    if !ok {
      return Fail(Foreign("netlink.LinkDel"));
    }
    h.log := h.log + [BridgeRemoved(bridge.name)];
    return Pass;
  }

  /** The loop of Remove: removeElement of each of the bridge's own port names, in the order of the bridge's ports. */
  method RemoveOwnPorts(ports: seq<string>, own: seq<Port>) returns (rest: seq<string>)
    ensures rest == Leftover(ports, OwnPortNames(own))
  {
    ghost var names := OwnPortNames(own);
    var a := new string[|ports|](i requires 0 <= i < |ports| => ports[i]);
    assert a[..] == ports;
    var n: nat := a.Length;
    for k := 0 to |own|
      modifies a
      invariant n <= a.Length
      invariant a[..n] == Leftover(ports, names[..k])
    {
      var p := own[k].name;
      if own[k].vlan > 0 {
        p := VlanName(own[k].name, own[k].vlan);
      }
      assert names[..k + 1][..k] == names[..k];
      n := RemoveElement(a, n, p);
    }
    assert names[..|own|] == names;
    rest := a[..n];
  }

  /**
   * AddPort: a zero port MTU takes the bridge's MTU, and a VLAN interface is
   * added for a non-zero VLAN id. The outcome of AddVlan is dropped, so
   * AddPort always succeeds. The Port returned is the caller's port as
   * AddPort leaves it.
   */
  method AddPort(h: Host, bridge: Bridge, port: Port) returns (updated: Port, e: Outcome)
    modifies h`links, h`log
    ensures updated.name == port.name && updated.vlan == port.vlan
    ensures updated.mtu == if port.mtu == 0 then bridge.mtu else port.mtu
    ensures e == Pass
    ensures port.vlan == 0 ==> h.links == old(h.links) && h.log == old(h.log)
    ensures port.vlan != 0 ==> h.log == old(h.log) || h.log == old(h.log) + [VlanEnsured(port.name, port.vlan, updated.mtu)]
    ensures old(h.links).Keys <= h.links.Keys
    ensures port.name !in old(h.links) ==> h.links == old(h.links) && h.log == old(h.log)
    ensures h.log != old(h.log) ==>
      && port.vlan != 0 && port.name in old(h.links)
      && VlanName(port.name, port.vlan) in h.links && h.links[VlanName(port.name, port.vlan)].up
      && h.links == Raised(old(h.links), VlanName(port.name, port.vlan),
                           NewVlan(port.name, port.vlan, updated.mtu).(index := h.links[VlanName(port.name, port.vlan)].index))
  {
    updated := port;
    if updated.mtu == 0 {
      updated := updated.(mtu := bridge.mtu);
    }
    if updated.vlan != 0 {
      var ignored := AddVlan(h, updated.name, updated.vlan, updated.mtu);
    }
    e := Pass;
  }

  /**
   * DeletePort: a missing link is already deleted; only a VLAN interface is
   * deleted, after it is released from its bridge.
   */
  method DeletePort(h: Host, name: string) returns (e: Outcome)
    modifies h`links, h`log
    ensures e.Pass? ==> h.log == old(h.log) + [PortDeleted(name)]
    ensures e.Pass? ==> h.links == if name in old(h.links) then Unlinked(old(h.links), name) else old(h.links)
    ensures e.Pass? && name in old(h.links) ==> old(h.links)[name].kind == VlanKind
    ensures name in old(h.links) && old(h.links)[name].kind != VlanKind ==> e.Fail?
    ensures name !in old(h.links) ==> e.Pass? || e == Fail(Foreign("netlink.LinkByName"))
    ensures e.Fail? ==> h.log == old(h.log)
    ensures e.Fail? && e.error.NotVlan? ==> name in old(h.links) && old(h.links)[name].kind != VlanKind && h.links == old(h.links)
    ensures h.links.Keys <= old(h.links).Keys
  {
    var port := h.LinkByName(name);
    if port.Missing? {
      h.log := h.log + [PortDeleted(name)];
      return Pass;
    }
    if port.Failed? {
      return Fail(Foreign("netlink.LinkByName"));
    }
    if port.value.kind != VlanKind {
      return Fail(NotVlan(name));
    }
    var ok := h.LinkSetNoMaster(name);
    if !ok {
      return Fail(Foreign("netlink.LinkSetNoMaster"));
    }
    ghost var released := h.links;
    ok := h.LinkDel(name);
    if !ok {
      return Fail(Foreign("netlink.LinkDel"));
    }
    UnlinkedReleased(old(h.links), name);
    h.log := h.log + [PortDeleted(name)];
    return Pass;
  }

  /**
   * AddVlan: the parent must exist; the VLAN interface iface.vlanId is
   * added (EEXIST accepted) and set up. The result is the interface's name.
   */
  method AddVlan(h: Host, iface: string, vlanId: int, mtu: int) returns (r: Result<string>)
    modifies h`links, h`log
    ensures r.Ok? ==> r.value == VlanName(iface, vlanId) && iface in old(h.links)
    ensures r.Ok? ==> r.value in h.links
    ensures r.Ok? ==> h.links == Raised(old(h.links), r.value, NewVlan(iface, vlanId, mtu).(index := h.links[r.value].index))
    ensures r.Ok? ==> h.log == old(h.log) + [VlanEnsured(iface, vlanId, mtu)]
    ensures iface !in old(h.links) ==> r.Err? && h.links == old(h.links)
    ensures r.Err? ==> h.log == old(h.log)
    ensures old(h.links).Keys <= h.links.Keys
  {
    var parent := h.LinkByName(iface);
    if !parent.Found? {
      return Err(Foreign("netlink.LinkByName"));
    }
    var name := VlanName(iface, vlanId);
    var added := h.LinkAdd(name, NewVlan(iface, vlanId, mtu));
    if added.AddFailed? {
      return Err(added.error);
    }
    var ok := h.LinkSetUp(name);
    if !ok {
      return Err(Foreign("netlink.LinkSetUp"));
    }
    h.log := h.log + [VlanEnsured(iface, vlanId, mtu)];
    return Ok(name);
  }

  // ---------------------------------------------------------------------------
  // Lemmas

  /** Clearing the master of a link before deleting it does not change what deleting it leaves. */
  lemma UnlinkedReleased(links: map<string, Link>, name: string)
    requires name in links
    ensures Unlinked(links[name := links[name].(master := None)], name) == Unlinked(links, name)
  {
  }

  /**
   * removeElement: an absent value leaves the slice as it is; otherwise the
   * slice is one shorter, the first occurrence holds the former last value
   * and every other position keeps its value.
   */
  lemma SwapRemovedShape(s: seq<string>, value: string)
    ensures value !in s ==> SwapRemoved(s, value) == s
    ensures value in s ==> |SwapRemoved(s, value)| == |s| - 1
    ensures value in s ==> forall j :: 0 <= j < |s| - 1 ==>
      SwapRemoved(s, value)[j] == if j == FirstIndex(s, value) then s[|s| - 1] else s[j]
  {
  }

  lemma MultisetSwap(front: seq<string>, value: string, mid: seq<string>, last: string)
    ensures multiset(front + [last] + mid) == multiset(front + [value] + mid + [last]) - multiset{value}
  {
    assert multiset(front + [last] + mid) == multiset(front) + multiset{last} + multiset(mid);
    assert multiset(front + [value] + mid + [last]) == multiset(front) + multiset{value} + multiset(mid) + multiset{last};
  }

  lemma SwapSplit(s: seq<string>, k: nat)
    requires k < |s| - 1
    ensures s == s[..k] + [s[k]] + s[k + 1..|s| - 1] + [s[|s| - 1]]
    ensures s[k := s[|s| - 1]][..|s| - 1] == s[..k] + [s[|s| - 1]] + s[k + 1..|s| - 1]
  {
    var r := s[k := s[|s| - 1]][..|s| - 1];
    var t := s[..k] + [s[|s| - 1]] + s[k + 1..|s| - 1];
    assert |r| == |t|;
    forall j | 0 <= j < |r| ensures r[j] == t[j] {
      if j < k {
      } else if j == k {
      } else {
        assert t[j] == s[k + 1..|s| - 1][j - k - 1];
      }
    }
  }

  /** removeElement takes away exactly one copy of value, when there is one, and keeps every other element. */
  lemma SwapRemovedMultiset(s: seq<string>, value: string)
    ensures multiset(SwapRemoved(s, value)) == multiset(s) - multiset{value}
  {
    if value in s {
      var k := FirstIndex(s, value);
      var r := SwapRemoved(s, value);
      if k == |s| - 1 {
        assert s == r + [value];
      } else {
        SwapSplit(s, k);
        MultisetSwap(s[..k], value, s[k + 1..|s| - 1], s[|s| - 1]);
      }
    } else {
      assert multiset(s)[value] == 0;
    }
  }

  /** Taking away each value of own removes one copy of it, when there is one. */
  lemma {:induction false} LeftoverMultiset(ports: seq<string>, own: seq<string>)
    ensures multiset(Leftover(ports, own)) == multiset(ports) - multiset(own)
  {
    if |own| > 0 {
      var p, v := own[..|own| - 1], own[|own| - 1];
      LeftoverMultiset(ports, p);
      SwapRemovedMultiset(Leftover(ports, p), v);
      assert own == p + [v];
    }
  }

  lemma {:induction false} NoDuplicatesCount(s: seq<string>, x: string)
    requires NoDuplicates(s)
    ensures multiset(s)[x] <= 1
  {
    if |s| > 0 {
      assert s == [s[0]] + s[1..];
      NoDuplicatesCount(s[1..], x);
      if s[0] == x {
        assert x !in s[1..];
      }
    }
  }

  /** Of ports listed once each, exactly those that are not own ports are left over. */
  lemma LeftoverMembers(ports: seq<string>, own: seq<string>)
    requires NoDuplicates(ports)
    ensures forall p :: p in Leftover(ports, own) <==> p in ports && p !in own
  {
    LeftoverMultiset(ports, own);
    forall p ensures p in Leftover(ports, own) <==> p in ports && p !in own {
      NoDuplicatesCount(ports, p);
      assert p in Leftover(ports, own) <==> multiset(Leftover(ports, own))[p] > 0;
    }
  }

  /** The name DeleteNetwork deletes for a port and the name AddVlan created for it differ exactly for VLAN id 0. */
  lemma VlanZeroName(port: Port)
    ensures (if port.vlan != 0 then VlanName(port.name, port.vlan) else port.name) != VlanName(port.name, port.vlan)
      <==> port.vlan == 0
  {
    assert |VlanName(port.name, port.vlan)| > |port.name|;
  }
}
