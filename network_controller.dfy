/**
 * The Network reconciler of controllers/network_controller.go: it decides
 * from the network's node selectors and the node's labels whether the
 * network concerns this node, and then creates this node's
 * NetworkAttachment, or copies the network's bridges, routes and
 * masquerading into the existing one.
 */
module NetworkController {
  import opened Wrappers
  import opened Api
  import opened Host
  import opened Hostname
  import AttachmentController

  // ---------------------------------------------------------------------------
  // nodeLabels

  /** The labels of the first node named name in the node list, if there is one. */
  function FirstLabels(nodes: seq<ClusterNode>, name: string): Option<map<string, string>>
  {
    if |nodes| == 0 then None
    else if nodes[0].name == name then Some(nodes[0].labels)
    else FirstLabels(nodes[1..], name)
  }

  /** FirstLabels finds the first node of that name, and finds nothing only when no node has it. */
  lemma {:induction false} FirstLabelsSpec(nodes: seq<ClusterNode>, name: string)
    ensures FirstLabels(nodes, name).None? <==> forall i :: 0 <= i < |nodes| ==> nodes[i].name != name
    ensures FirstLabels(nodes, name).Some? ==>
      exists i :: 0 <= i < |nodes| && nodes[i].name == name && FirstLabels(nodes, name).value == nodes[i].labels &&
        forall j :: 0 <= j < i ==> nodes[j].name != name
  {
    if |nodes| > 0 && nodes[0].name != name {
      FirstLabelsSpec(nodes[1..], name);
      if FirstLabels(nodes, name).Some? {
        var i :| 0 <= i < |nodes[1..]| && nodes[1..][i].name == name && FirstLabels(nodes, name).value == nodes[1..][i].labels &&
          forall j :: 0 <= j < i ==> nodes[1..][j].name != name;
        assert nodes[i + 1].name == name && forall j :: 0 <= j < i + 1 ==> nodes[j].name != name;
      } else {
        forall i | 0 <= i < |nodes|
          ensures nodes[i].name != name
        {
          if i > 0 {
            assert nodes[i] == nodes[1..][i - 1];
          }
        }
      }
    } else if |nodes| > 0 {
      assert nodes[0].name == name;
    }
  }

  /**
   * The labels Reconcile matches against: those of the node, or none (a nil
   * label set) when the node is not listed or the node list cannot be read.
   */
  function NodeLabelsOf(nodes: seq<ClusterNode>, name: string): map<string, string>
  {
    match FirstLabels(nodes, name)
    case Some(labels) => labels
    case None => map[]
  }

  /** nodeLabels: list the nodes and return the labels of the one named name; none when it is not listed. */
  method NodeLabels(h: Host, name: string) returns (r: Result<Option<map<string, string>>>)
    ensures r.Ok? ==> r.value == FirstLabels(h.nodes, name)
  {
    var list := h.ListNodes();
    if list.Err? {
      return Err(list.error);
    }
    var nodes := list.value;
    var i := 0;
    while i < |nodes|
      invariant 0 <= i <= |nodes|
      invariant FirstLabels(nodes, name) == FirstLabels(nodes[i..], name)
    {
      if nodes[i].name == name {
        return Ok(Some(nodes[i].labels));
      }
      assert nodes[i..][1..] == nodes[i + 1..];
      i := i + 1;
    }
    return Ok(None);
  }

  // ---------------------------------------------------------------------------
  // shouldRun

  /**
   * The selector loop of Reconcile: the network runs on this node when any
   * of its selectors matches the node's labels.
   */
  method ShouldRun(h: Host, selectors: seq<LabelSelector>, labels: map<string, string>) returns (run: bool)
    ensures run <==> exists j :: 0 <= j < |selectors| && h.matches(selectors[j], labels)
  {
    run := false;
    for i := 0 to |selectors|
      invariant run <==> exists j :: 0 <= j < i && h.matches(selectors[j], labels)
    {
      if h.matches(selectors[i], labels) {
        run := true;
      }
    }
  }

  /**
   * The network may concern this node: no selectors at all, or one that
   * matches the node's labels or, when those could not be read, the empty
   * label set.
   */
  predicate Eligible(h: Host, selectors: seq<LabelSelector>, nodes: seq<ClusterNode>, hostname: string)
  {
    |selectors| == 0 ||
    exists j :: 0 <= j < |selectors| &&
      (h.matches(selectors[j], NodeLabelsOf(nodes, hostname)) || h.matches(selectors[j], map[]))
  }

  // ---------------------------------------------------------------------------
  // Synchronising an existing attachment

  /** The attachment with the network's bridges, routes and masquerading copied into it. */
  function Synced(n: NetworkSpec, a: NetworkAttachment): NetworkAttachment
  {
    a.(spec := a.spec.(bridge := n.bridge, routes := n.routes, ipMasq := n.ipMasq))
  }

  /**
   * Synced copies exactly the three fields, leaves the node name, the
   * selectors and the metadata alone, changes nothing when they already
   * agree, and a second copy changes nothing more.
   */
  lemma SyncedSpec(n: NetworkSpec, a: NetworkAttachment)
    ensures Synced(n, a).spec.bridge == n.bridge && Synced(n, a).spec.routes == n.routes
    ensures Synced(n, a).spec.ipMasq == n.ipMasq
    ensures Synced(n, a).meta == a.meta && Synced(n, a).spec.nodeName == a.spec.nodeName
    ensures Synced(n, a).spec.nodeSelectors == a.spec.nodeSelectors
    ensures Synced(n, a) == a <==> (a.spec.bridge == n.bridge && a.spec.routes == n.routes && a.spec.ipMasq == n.ipMasq)
    ensures Synced(n, Synced(n, a)) == Synced(n, a)
  {
  }

  /** A fresh attachment already carries the network's fields. */
  lemma NewIsSynced(hostname: string, n: Network, req: NamespacedName)
    ensures Synced(n.spec, AttachmentController.NewNetworkAttachment(hostname, n, req)) ==
      AttachmentController.NewNetworkAttachment(hostname, n, req)
  {
    var a := AttachmentController.NewNetworkAttachment(hostname, n, req);
    SyncedSpec(n.spec, a);
  }

  /** The three field comparisons of Reconcile: copy each field that differs and note that an update is needed. */
  method SyncAttachment(n: NetworkSpec, a: NetworkAttachment) returns (b: NetworkAttachment, update: bool)
    ensures b == Synced(n, a)
    ensures update <==> b != a
  {
    b, update := a, false;
    if n.bridge != b.spec.bridge {
      b := b.(spec := b.spec.(bridge := n.bridge));
      update := true;
    }
    if n.routes != b.spec.routes {
      b := b.(spec := b.spec.(routes := n.routes));
      update := true;
    }
    if n.ipMasq != b.spec.ipMasq {
      b := b.(spec := b.spec.(ipMasq := n.ipMasq));
      update := true;
    }
    SyncedSpec(n, a);
  }

  // ---------------------------------------------------------------------------
  // Reconcile

  /** This node's attachment of the requested network: "<hostname>-<name>" in the network's namespace. */
  function AttachmentKey(hostname: string, req: NamespacedName): NamespacedName
  {
    NamespacedName(req.namespace, hostname + "-" + req.name)
  }

  /** The store after a run that concerns this node: the attachment created, or synchronised when needed. */
  function Reconciled(store: map<NamespacedName, NetworkAttachment>, hostname: string, n: Network, req: NamespacedName)
    : map<NamespacedName, NetworkAttachment>
  {
    var key := AttachmentKey(hostname, req);
    if key !in store then store[key := AttachmentController.NewNetworkAttachment(hostname, n, req)]
    else if Synced(n.spec, store[key]) == store[key] then store
    else Persisted(store, Synced(n.spec, store[key]))
  }

  /** The writes of such a run. */
  function SyncPlan(store: map<NamespacedName, NetworkAttachment>, hostname: string, n: Network, req: NamespacedName)
    : seq<Call>
  {
    var key := AttachmentKey(hostname, req);
    if key !in store then [Created(key, AttachmentController.NewNetworkAttachment(hostname, n, req))]
    else if Synced(n.spec, store[key]) == store[key] then []
    else [Updated(key, Synced(n.spec, store[key]))]
  }

  /**
   * A run touches only this node's attachment of the network; afterwards
   * that attachment carries the network's bridges, routes and masquerading,
   * unless it was marked for deletion with no finalizer left, when the
   * update lets it go.
   */
  lemma ReconciledSpec(store: map<NamespacedName, NetworkAttachment>, hostname: string, n: Network, req: NamespacedName)
    requires Keyed(store)
    ensures Keyed(Reconciled(store, hostname, n, req))
    ensures forall k :: k != AttachmentKey(hostname, req) ==>
      (k in Reconciled(store, hostname, n, req) <==> k in store) &&
      (k in store ==> Reconciled(store, hostname, n, req)[k] == store[k])
    ensures var key := AttachmentKey(hostname, req);
      var r := Reconciled(store, hostname, n, req);
      key in r <==>
        (key !in store || !store[key].meta.deleting || |store[key].meta.finalizers| > 0 ||
         Synced(n.spec, store[key]) == store[key])
    ensures var key := AttachmentKey(hostname, req);
      var r := Reconciled(store, hostname, n, req);
      key in r ==>
        (r[key].spec.bridge == n.spec.bridge && r[key].spec.routes == n.spec.routes &&
         r[key].spec.ipMasq == n.spec.ipMasq)
  {
    var key := AttachmentKey(hostname, req);
    var created := AttachmentController.NewNetworkAttachment(hostname, n, req);
    assert Key(created.meta) == key;
    if key in store {
      SyncedSpec(n.spec, store[key]);
      assert Key(Synced(n.spec, store[key]).meta) == key;
    }
  }

  /** A second run over the store a run left behind writes nothing, unless the first one let the attachment go. */
  lemma ReconciledIdempotent(store: map<NamespacedName, NetworkAttachment>, hostname: string, n: Network, req: NamespacedName)
    requires Keyed(store)
    requires AttachmentKey(hostname, req) in Reconciled(store, hostname, n, req)
    ensures SyncPlan(Reconciled(store, hostname, n, req), hostname, n, req) == []
    ensures Reconciled(Reconciled(store, hostname, n, req), hostname, n, req) == Reconciled(store, hostname, n, req)
  {
    var key := AttachmentKey(hostname, req);
    var created := AttachmentController.NewNetworkAttachment(hostname, n, req);
    assert Key(created.meta) == key;
    NewIsSynced(hostname, n, req);
    if key in store {
      SyncedSpec(n.spec, store[key]);
      assert Key(Synced(n.spec, store[key]).meta) == key;
    }
  }

  /**
   * The branch of Reconcile that runs when the network concerns this node:
   * read this node's attachment; create it when it is missing, otherwise
   * copy the network's fields into it and update it when any changed.
   */
  method SyncNetwork(h: Host, hostname: string, n: Network, req: NamespacedName) returns (e: Outcome)
    requires Keyed(h.attachments)
    modifies h`attachments, h`log
    ensures e.Pass? ==> h.attachments == Reconciled(old(h.attachments), hostname, n, req)
    ensures e.Pass? ==> h.log == old(h.log) + SyncPlan(old(h.attachments), hostname, n, req)
    ensures e.Fail? ==> h.attachments == old(h.attachments) && h.log == old(h.log)
  {
    var key := AttachmentKey(hostname, req);
    var got := h.GetAttachment(key);
    if got.Missing? {
      var created := AttachmentController.NewNetworkAttachment(hostname, n, req);
      var ok := h.CreateAttachment(created);
      if !ok {
        return Fail(Foreign("client.Create"));
      }
      return Pass;
    }
    if got.Failed? {
      return Fail(got.error);
    }
    var synced, update := SyncAttachment(n.spec, got.value);
    if update {
      assert Key(synced.meta) == key by {
        SyncedSpec(n.spec, got.value);
      }
      var ok := h.UpdateAttachment(synced);
      if !ok {
        return Fail(Foreign("client.Update"));
      }
    }
    return Pass;
  }

  /**
   * Reconcile: every failure leaves the node and the cluster as they were;
   * a run either changes nothing or is one whose network concerns this node,
   * and then leaves the store Reconciled. A network without selectors
   * concerns every node.
   */
  method Reconcile(h: Host, req: NamespacedName) returns (e: Outcome)
    requires Keyed(h.attachments)
    modifies h`attachments, h`log
    ensures Keyed(h.attachments)
    ensures GetHostname(h.env, h.osHostname).Err? ==> e.Fail?
    ensures e.Fail? ==> unchanged(h)
    ensures req !in h.networks ==> unchanged(h)
    ensures unchanged(h) ||
      (GetHostname(h.env, h.osHostname).Ok? && req in h.networks &&
       var hostname, n := GetHostname(h.env, h.osHostname).value, h.networks[req];
       Eligible(h, n.spec.nodeSelectors, h.nodes, hostname) &&
       h.attachments == Reconciled(old(h.attachments), hostname, n, req) &&
       h.log == old(h.log) + SyncPlan(old(h.attachments), hostname, n, req))
    ensures (e.Pass? && GetHostname(h.env, h.osHostname).Ok? && req in h.networks &&
             |h.networks[req].spec.nodeSelectors| == 0) ==>
      var hostname, n := GetHostname(h.env, h.osHostname).value, h.networks[req];
      (h.attachments == Reconciled(old(h.attachments), hostname, n, req) &&
       h.log == old(h.log) + SyncPlan(old(h.attachments), hostname, n, req))
  {
    var hostname := GetHostname(h.env, h.osHostname);
    if hostname.Err? {
      return Fail(hostname.error);
    }
    var got := h.GetNetwork(req);
    if got.Missing? {
      return Pass;
    }
    if got.Failed? {
      return Fail(got.error);
    }
    var n := got.value;
    var run := true;
    if |n.spec.nodeSelectors| > 0 {
      var found := NodeLabels(h, hostname.value);
      var labels := if found.Ok? && found.value.Some? then found.value.value else map[];
      assert labels == NodeLabelsOf(h.nodes, hostname.value) || labels == map[];
      run := ShouldRun(h, n.spec.nodeSelectors, labels);
    }
    if run {
      ReconciledSpec(old(h.attachments), hostname.value, n, req);
      e := SyncNetwork(h, hostname.value, n, req);
    } else {
      e := Pass;
    }
  }
}
