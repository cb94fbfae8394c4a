/**
 * controllers/network_attachment_controller.go: the per-node reconciler of
 * NetworkAttachment objects. An attachment for this node is first guarded
 * by a finalizer; while it lives, its stale ports are deleted, its network
 * is created and the spec is recorded as last applied; once it is marked
 * for deletion, its network and masquerading are torn down before the
 * finalizer is released.
 */
module AttachmentController {
  import opened Wrappers
  import opened Api
  import opened Host
  import opened Plans
  import opened Hostname
  import NetworkSetup
  import Firewall
  import AttachmentDiff

  const Finalizer: string := "network.namecheapcloud.net/finalizer"

  /** controllerutil.RemoveFinalizer: every occurrence of f goes, the others keep their order. */
  function Without(finalizers: seq<string>, f: string): (r: seq<string>)
    ensures forall x :: x in r <==> x in finalizers && x != f
    ensures |r| <= |finalizers|
  {
    if |finalizers| == 0 then []
    else (if finalizers[0] == f then [] else [finalizers[0]]) + Without(finalizers[1..], f)
  }

  /** The object with the finalizer added, as controllerutil.AddFinalizer leaves it. */
  function Finalized(obj: NetworkAttachment): NetworkAttachment
  {
    if Finalizer in obj.meta.finalizers then obj
    else obj.(meta := obj.meta.(finalizers := obj.meta.finalizers + [Finalizer]))
  }

  /** The object with the finalizer released. */
  function Released(obj: NetworkAttachment): NetworkAttachment
  {
    obj.(meta := obj.meta.(finalizers := Without(obj.meta.finalizers, Finalizer)))
  }

  /**
   * lastAppliedConfig's object: the whole annotation map replaced by the one
   * last-applied entry, holding the spec.
   */
  function Committed(obj: NetworkAttachment): NetworkAttachment
  {
    obj.(meta := obj.meta.(annotations := map[AttachmentDiff.LastAppliedConfiguration := Serialized(obj.spec)]))
  }

  /** The finalizer is added only to an object that lacks it, and then nothing else about the object changes. */
  lemma FinalizedSpec(obj: NetworkAttachment)
    ensures Finalizer in Finalized(obj).meta.finalizers
    ensures Finalized(obj).spec == obj.spec && Finalized(obj).meta.annotations == obj.meta.annotations
    ensures Key(Finalized(obj).meta) == Key(obj.meta)
    ensures Finalizer in obj.meta.finalizers ==> Finalized(obj) == obj
    ensures Released(Finalized(obj)).meta.finalizers == Without(obj.meta.finalizers, Finalizer)
  {
    assert Finalized(obj).meta.finalizers == obj.meta.finalizers + [Finalizer] || Finalized(obj) == obj;
    WithoutAppend(obj.meta.finalizers, Finalizer);
  }

  lemma {:induction false} WithoutAppend(finalizers: seq<string>, f: string)
    ensures Without(finalizers + [f], f) == Without(finalizers, f)
  {
    if |finalizers| == 0 {
      assert Without([f], f) == [] + Without([], f);
    } else {
      assert (finalizers + [f])[1..] == finalizers[1..] + [f];
      WithoutAppend(finalizers[1..], f);
    }
  }

  /**
   * What the next DiffNetwork reads from a committed attachment: the applied
   * spec as the previous spec, with nothing else in the annotations.
   */
  lemma CommittedReadsBack(h: Host, obj: NetworkAttachment, next: NetworkAttachmentSpec)
    ensures Committed(obj).meta.annotations.Keys == {AttachmentDiff.LastAppliedConfiguration}
    ensures var d := h.diff(obj.spec, next);
      AttachmentDiff.Stale(h, Committed(obj).(spec := next)) ==
        if d.Err? then Err(d.error) else AttachmentDiff.StalePorts(obj.spec, d.value)
  {
  }

  /**
   * NewNetworkAttachment: the attachment of network n for this node, named
   * "<hostname>-<request name>" in the request's namespace, carrying the
   * network's spec and owned by the network.
   */
  function NewNetworkAttachment(hostname: string, n: Network, req: NamespacedName): (r: NetworkAttachment)
    ensures Key(r.meta) == NamespacedName(req.namespace, hostname + "-" + req.name)
    ensures r.spec.bridge == n.spec.bridge && r.spec.routes == n.spec.routes && r.spec.ipMasq == n.spec.ipMasq
    ensures r.spec.nodeSelectors == n.spec.nodeSelectors && r.spec.nodeName == hostname
    ensures |r.meta.ownerReferences| == 1
    ensures var o := r.meta.ownerReferences[0];
      o.controller && o.blockOwnerDeletion && o.kind == "Network" && o.name == n.meta.name && o.uid == n.meta.uid
    ensures r.meta.finalizers == [] && !r.meta.deleting && r.meta.annotations == map[]
  {
    NetworkAttachment(
      ObjectMeta(hostname + "-" + req.name, req.namespace, "", [], false, map[],
        [OwnerReference("network.namecheapcloud.net/v1alpha1", "Network", n.meta.name, n.meta.uid, true, true)]),
      NetworkAttachmentSpec(n.spec.bridge, n.spec.ipMasq, n.spec.routes, hostname, n.spec.nodeSelectors))
  }

  /**
   * filterNetworkAttachmentEvent: an update is dropped only when both
   * objects are attachments, the new one is not being deleted and the spec
   * did not change.
   */
  function FilterNetworkAttachmentEvent(e: UpdateEvent): (r: bool)
    ensures !r <==>
      (e.objectNew.AttachmentObject? && e.objectOld.AttachmentObject? &&
       !e.objectNew.attachment.meta.deleting && e.objectNew.attachment.spec == e.objectOld.attachment.spec)
  {
    if !e.objectNew.AttachmentObject? then true
    else if !e.objectOld.AttachmentObject? then true
    else if e.objectNew.attachment.meta.deleting then true
    else e.objectNew.attachment.spec != e.objectOld.attachment.spec
  }

  // ---------------------------------------------------------------------------
  // Reconcile

  /** The steps of releasing an attachment marked for deletion. */
  function ReleasePlan(obj: NetworkAttachment): seq<Call>
  {
    NetworkSetup.DeletePlan(obj.spec) + Firewall.UnmasqPlan(obj.spec.ipMasq) + [Updated(Key(obj.meta), Released(obj))]
  }

  /** The finalizer's update, when the object lacks the finalizer. */
  function FinalizerPlan(obj: NetworkAttachment): seq<Call>
  {
    if Finalizer in obj.meta.finalizers then [] else [Updated(Key(obj.meta), Finalized(obj))]
  }

  /** The steps of applying an attachment that holds the finalizer: stale ports, network, last-applied record. */
  function FinalizedPlan(obj: NetworkAttachment, stale: seq<string>): seq<Call>
  {
    AttachmentDiff.DeletionsPlan(stale) + NetworkSetup.CreatePlan(obj.spec) + [Updated(Key(obj.meta), Committed(obj))]
  }

  /** The steps of applying a live attachment: the finalizer first, when it is missing. */
  function ApplyPlan(h: Host, obj: NetworkAttachment): seq<Call>
    requires AttachmentDiff.Stale(h, obj).Ok?
  {
    FinalizerPlan(obj) + FinalizedPlan(Finalized(obj), AttachmentDiff.Stale(h, obj).value)
  }

  /**
   * The deletion branch, for an attachment that holds the finalizer: re-read
   * it, delete its network, delete its masquerading (whether or not it is
   * enabled), then persist it with the finalizer released. The finalizer
   * stays unless every step succeeds.
   */
  method Release(h: Host, key: NamespacedName) returns (e: Outcome)
    requires key in h.attachments && Key(h.attachments[key].meta) == key
    requires Finalizer in h.attachments[key].meta.finalizers
    modifies h`links, h`forward, h`chains, h`attachments, h`log
    ensures h.links.Keys <= old(h.links).Keys
    ensures e.Pass? ==> h.log == old(h.log) + ReleasePlan(old(h.attachments)[key])
    ensures e.Pass? ==> h.attachments == Persisted(old(h.attachments), Released(old(h.attachments)[key]))
    ensures e.Fail? ==> Aborted(old(h.log), h.log, ReleasePlan(old(h.attachments)[key]))
    ensures e.Fail? ==> h.attachments == old(h.attachments)
  {
    ghost var tp, last := NetworkSetup.DeletePlan(h.attachments[key].spec) + Firewall.UnmasqPlan(h.attachments[key].spec.ipMasq),
      [Updated(key, Released(h.attachments[key]))];
    var got := h.GetAttachment(key);
    if !got.Found? {
      AbortedAfter(old(h.log), [], tp + last);
      return Fail(Foreign("client.Get"));
    }
    var obj := got.value;
    e := TearDown(h, obj.spec);
    if e.Fail? {
      AbortedPrefix(old(h.log), h.log, tp, last, []);
      assert tp + last + [] == tp + last;
      return;
    }
    var released := obj.(meta := obj.meta.(finalizers := Without(obj.meta.finalizers, Finalizer)));
    var ok := h.UpdateAttachment(released);
    if !ok {
      AbortedAfter(old(h.log), tp, last);
      return Fail(Foreign("client.Update"));
    }
    Appended(old(h.log), tp, last);
  }

  /** DeleteNetwork, then DeleteMasquerade, the second only after the first succeeded. */
  method TearDown(h: Host, spec: NetworkAttachmentSpec) returns (e: Outcome)
    modifies h`links, h`forward, h`chains, h`log
    ensures h.links.Keys <= old(h.links).Keys
    ensures e.Pass? ==> h.log == old(h.log) + (NetworkSetup.DeletePlan(spec) + Firewall.UnmasqPlan(spec.ipMasq))
    ensures e.Fail? ==> Aborted(old(h.log), h.log, NetworkSetup.DeletePlan(spec) + Firewall.UnmasqPlan(spec.ipMasq))
  {
    ghost var dp, up := NetworkSetup.DeletePlan(spec), Firewall.UnmasqPlan(spec.ipMasq);
    e := NetworkSetup.DeleteNetwork(h, spec);
    if e.Fail? {
      AbortedPrefix(old(h.log), h.log, dp, up, []);
      assert dp + up + [] == dp + up;
      return;
    }
    e := Firewall.DeleteMasquerade(h, spec.ipMasq);
    if e.Fail? {
      AbortedWithin(old(h.log), h.log, dp, up, []);
      assert dp + up + [] == dp + up;
      return;
    }
    Appended(old(h.log), dp, up);
  }

  /**
   * The forward branch, for the attachment obj that Reconcile read: persist
   * the finalizer when it is missing, then apply. Nothing at all changes
   * unless the finalizer is persisted first.
   */
  method Apply(h: Host, key: NamespacedName, obj: NetworkAttachment) returns (e: Outcome)
    requires key in h.attachments && h.attachments[key] == obj && Key(obj.meta) == key
    requires !obj.meta.deleting
    modifies h`links, h`routes, h`sysctls, h`forward, h`chains, h`garps, h`attachments, h`log
    ensures e.Pass? ==> AttachmentDiff.Stale(h, obj).Ok? && h.log == old(h.log) + ApplyPlan(h, obj)
    ensures e.Pass? ==> h.attachments == old(h.attachments)[key := Committed(Finalized(obj))]
    ensures e.Fail? ==> h.attachments == old(h.attachments) || h.attachments == old(h.attachments)[key := Finalized(obj)]
    ensures key in h.attachments && Finalizer !in h.attachments[key].meta.finalizers ==> unchanged(h)
  {
    FinalizedSpec(obj);
    e := EnsureFinalizer(h, key, obj);
    if e.Fail? {
      return;
    }
    e := ApplyFinalized(h, key, Finalized(obj));
    AttachmentDiff.StaleReads(h, Finalized(obj), obj);
    if e.Pass? {
      Overwritten(old(h.attachments), key, Finalized(obj), Committed(Finalized(obj)));
      Appended(old(h.log), FinalizerPlan(obj), FinalizedPlan(Finalized(obj), AttachmentDiff.Stale(h, obj).value));
    }
  }

  /** A second write to a key replaces the first. */
  lemma Overwritten(store: map<NamespacedName, NetworkAttachment>, key: NamespacedName, a: NetworkAttachment, b: NetworkAttachment)
    ensures store[key := a][key := b] == store[key := b]
  {
  }

  /** Add the finalizer and persist the object, unless it already holds the finalizer. */
  method EnsureFinalizer(h: Host, key: NamespacedName, obj: NetworkAttachment) returns (e: Outcome)
    requires key in h.attachments && h.attachments[key] == obj && Key(obj.meta) == key
    requires !obj.meta.deleting
    modifies h`attachments, h`log
    ensures e.Pass? ==> h.attachments == old(h.attachments)[key := Finalized(obj)]
    ensures e.Pass? ==> h.log == old(h.log) + FinalizerPlan(obj)
    ensures e.Fail? ==> Finalizer !in obj.meta.finalizers && unchanged(h)
  {
    FinalizedSpec(obj);
    if Finalizer in obj.meta.finalizers {
      assert old(h.attachments)[key := obj] == old(h.attachments);
      return Pass;
    }
    var ok := h.UpdateAttachment(Finalized(obj));
    if !ok {
      return Fail(Foreign("client.Update"));
    }
    return Pass;
  }

  /**
   * DiffNetwork, CreateNetwork and lastAppliedConfig, each only after the
   * previous one succeeded: the last-applied record changes only when the
   * stale ports are deleted and the network is created.
   */
  method ApplyFinalized(h: Host, key: NamespacedName, obj: NetworkAttachment) returns (e: Outcome)
    requires key in h.attachments && h.attachments[key] == obj && Key(obj.meta) == key
    requires !obj.meta.deleting && Finalizer in obj.meta.finalizers
    modifies h`links, h`routes, h`sysctls, h`forward, h`chains, h`garps, h`attachments, h`log
    ensures e.Pass? ==>
      (AttachmentDiff.Stale(h, obj).Ok? && h.log == old(h.log) + FinalizedPlan(obj, AttachmentDiff.Stale(h, obj).value))
    ensures e.Pass? ==> h.attachments == old(h.attachments)[key := Committed(obj)]
    ensures e.Fail? ==> h.attachments == old(h.attachments)
  {
    e := AttachmentDiff.DiffNetwork(h, key);
    if e.Fail? {
      return;
    }
    ghost var dp := h.log[|old(h.log)|..];
    e := NetworkSetup.CreateNetwork(h, obj.spec);
    if e.Fail? {
      return;
    }
    e := LastAppliedConfig(h, key);
    if e.Fail? {
      return;
    }
    Regrouped(old(h.log), dp, NetworkSetup.CreatePlan(obj.spec), [Updated(key, Committed(obj))]);
  }

  /** lastAppliedConfig: re-read the attachment and persist it with its spec as the sole annotation. */
  method LastAppliedConfig(h: Host, key: NamespacedName) returns (e: Outcome)
    requires key in h.attachments ==> Key(h.attachments[key].meta) == key
    modifies h`attachments, h`log
    ensures key !in old(h.attachments) ==> e.Fail?
    ensures e.Pass? ==>
      (key in old(h.attachments) &&
       h.attachments == Persisted(old(h.attachments), Committed(old(h.attachments)[key])) &&
       h.log == old(h.log) + [Updated(key, Committed(old(h.attachments)[key]))])
    ensures e.Fail? ==> h.attachments == old(h.attachments) && h.log == old(h.log)
  {
    var got := h.GetAttachment(key);
    if !got.Found? {
      return Fail(Foreign("client.Get"));
    }
    var obj := got.value;
    var committed := obj.(meta := obj.meta.(annotations := map[AttachmentDiff.LastAppliedConfiguration := Serialized(obj.spec)]));
    var ok := h.UpdateAttachment(committed);
    if !ok {
      return Fail(Foreign("client.Update"));
    }
    return Pass;
  }

  /** The request names an attachment of this node. */
  predicate Selected(h: Host, store: map<NamespacedName, NetworkAttachment>, key: NamespacedName)
  {
    key in store && GetHostname(h.env, h.osHostname) == Ok(store[key].spec.nodeName)
  }

  /**
   * Reconcile: nothing happens for a missing attachment or one of another
   * node; an attachment marked for deletion is released only if it holds
   * the finalizer; a live one is applied.
   */
  method Reconcile(h: Host, key: NamespacedName) returns (e: Outcome)
    requires Keyed(h.attachments)
    modifies h`links, h`routes, h`sysctls, h`forward, h`chains, h`garps, h`attachments, h`log
    ensures Keyed(h.attachments)
    ensures GetHostname(h.env, h.osHostname).Err? ==> e.Fail? && unchanged(h)
    ensures !Selected(h, old(h.attachments), key) ==> unchanged(h)
    ensures Selected(h, old(h.attachments), key) && old(h.attachments)[key].meta.deleting ==>
      var obj := old(h.attachments)[key];
      (Finalizer !in obj.meta.finalizers ==> unchanged(h)) &&
      (Finalizer in obj.meta.finalizers && e.Pass? ==>
        h.log == old(h.log) + ReleasePlan(obj) && h.attachments == Persisted(old(h.attachments), Released(obj))) &&
      (e.Fail? ==> h.attachments == old(h.attachments))
    ensures Selected(h, old(h.attachments), key) && !old(h.attachments)[key].meta.deleting ==>
      var obj := old(h.attachments)[key];
      (e.Pass? ==>
        (AttachmentDiff.Stale(h, obj).Ok? && h.log == old(h.log) + ApplyPlan(h, obj) &&
         h.attachments == old(h.attachments)[key := Committed(Finalized(obj))])) &&
      (e.Fail? ==> key in h.attachments && h.attachments[key].meta.annotations == obj.meta.annotations)
  {
    var hostname := GetHostname(h.env, h.osHostname);
    if hostname.Err? {
      return Fail(hostname.error);
    }
    var got := h.GetAttachment(key);
    if got.Missing? {
      return Pass;
    }
    if got.Failed? {
      return Fail(got.error);
    }
    var obj := got.value;
    if hostname.value != obj.spec.nodeName {
      return Pass;
    }
    if obj.meta.deleting {
      if Finalizer in obj.meta.finalizers {
        e := Release(h, key);
        PersistedKeyed(old(h.attachments), Released(obj));
        return;
      }
      return Pass;
    }
    e := Apply(h, key, obj);
    FinalizedSpec(obj);
    PersistedKeyed(old(h.attachments), Committed(Finalized(obj)));
  }
}
