/**
 * controllers/network_attachment_diff.go: before an attachment is applied
 * again, the ports that the last applied spec had and the new spec changed
 * or dropped are deleted. The structural differ (r3labs/diff) is foreign:
 * its changelog, a sequence of (type, path) records, comes from the host.
 */
module AttachmentDiff {
  import opened Wrappers
  import opened Text
  import opened Seqs
  import opened Api
  import opened Host
  import opened Plans
  import LinuxBridge

  /** The annotation under which the last applied spec is kept. */
  const LastAppliedConfiguration: string := "networkattachment/last-applied-configuration"

  /** The records portDiff looks at: deletions and updates anywhere under a Bridge field. */
  predicate Contributes(c: Change)
  {
    (c.kind == "delete" || c.kind == "update") && "Bridge" in c.path
  }

  /**
   * What one changelog record contributes to portDiff's result: nothing, the
   * name "<port>.<vlan>" of the port of prev that the path's indexes 1 and 3
   * select, or an error. A path too short to have an index 3, or an index
   * outside prev's bridges or ports, is a Go index-out-of-range panic.
   */
  function Contribution(prev: NetworkAttachmentSpec, c: Change): Result<Option<string>>
  {
    if !Contributes(c) then Ok(None)
    else if |c.path| < 4 then Err(Panic("index out of range"))
    else match Atoi(c.path[1])
      case Err(e) => Err(e)
      case Ok(b) =>
        match Atoi(c.path[3])
        case Err(e) => Err(e)
        case Ok(p) =>
          if b < 0 || b >= |prev.bridge| || p < 0 || p >= |prev.bridge[b].ports| then Err(Panic("index out of range"))
          else Ok(Some(LinuxBridge.VlanName(prev.bridge[b].ports[p].name, prev.bridge[b].ports[p].vlan)))
  }

  /** The names the records contribute, in record order, repeats included. */
  function Named(prev: NetworkAttachmentSpec, changes: seq<Change>): seq<string>
  {
    if |changes| == 0 then []
    else
      var front := Named(prev, changes[..|changes| - 1]);
      match Contribution(prev, changes[|changes| - 1])
      case Ok(Some(n)) => front + [n]
      case _ => front
  }

  /** The error of the first record that has one. */
  function FirstError(prev: NetworkAttachmentSpec, changes: seq<Change>): Option<Error>
  {
    if |changes| == 0 then None
    else
      var front := FirstError(prev, changes[..|changes| - 1]);
      if front.Some? then front
      else match Contribution(prev, changes[|changes| - 1])
        case Err(e) => Some(e)
        case _ => None
  }

  /** What portDiff returns for a changelog: the first error, or the contributed names without repeats. */
  function StalePorts(prev: NetworkAttachmentSpec, changes: seq<Change>): Result<seq<string>>
  {
    match FirstError(prev, changes)
    case Some(e) => Err(e)
    case None => Ok(Dedup(Named(prev, changes)))
  }

  /** The body of portDiff's loop for one changelog record. */
  method PortOf(prev: NetworkAttachmentSpec, change: Change) returns (r: Result<Option<string>>)
    ensures r == Contribution(prev, change)
  {
    if change.kind == "delete" || change.kind == "update" {
      if "Bridge" in change.path {
        if |change.path| < 4 {
          return Err(Panic("index out of range"));
        }
        var brId := Atoi(change.path[1]);
        if brId.Err? {
          return Err(brId.error);
        }
        var portId := Atoi(change.path[3]);
        if portId.Err? {
          return Err(portId.error);
        }
        if brId.value < 0 || brId.value >= |prev.bridge| {
          return Err(Panic("index out of range"));
        }
        var br := prev.bridge[brId.value];
        if portId.value < 0 || portId.value >= |br.ports| {
          return Err(Panic("index out of range"));
        }
        var port := br.ports[portId.value];
        return Ok(Some(port.name + "." + IntToString(port.vlan)));
      }
    }
    return Ok(None);
  }

  /** portDiff: the changelog comes from the host's differ, whose error is returned. */
  method PortDiff(h: Host, prev: NetworkAttachmentSpec, current: NetworkAttachmentSpec) returns (r: Result<seq<string>>)
    ensures h.diff(prev, current).Err? ==> r == Err(h.diff(prev, current).error)
    ensures h.diff(prev, current).Ok? ==> r == StalePorts(prev, h.diff(prev, current).value)
  {
    var changelog := h.diff(prev, current);
    if changelog.Err? {
      return Err(changelog.error);
    }
    var changes := changelog.value;
    var ports: seq<string> := [];
    for i := 0 to |changes|
      invariant FirstError(prev, changes[..i]) == None
      invariant ports == Dedup(Named(prev, changes[..i]))
    {
      NamedNext(prev, changes, i);
      var contribution := PortOf(prev, changes[i]);
      if contribution.Err? {
        ErrorAt(prev, changes, i);
        return Err(contribution.error);
      }
      if contribution.value.Some? {
        var portName := contribution.value.value;
        DedupSnoc(Named(prev, changes[..i]), portName);
        if portName !in ports {
          ports := ports + [portName];
        }
      }
    }
    assert changes[..|changes|] == changes;
    return Ok(ports);
  }

  /** One more record of the changelog. */
  lemma NamedNext(prev: NetworkAttachmentSpec, changes: seq<Change>, i: nat)
    requires i < |changes|
    ensures FirstError(prev, changes[..i + 1]) ==
      if FirstError(prev, changes[..i]).Some? then FirstError(prev, changes[..i])
      else if Contribution(prev, changes[i]).Err? then Some(Contribution(prev, changes[i]).error)
      else None
    ensures Named(prev, changes[..i + 1]) ==
      if Contribution(prev, changes[i]).Ok? && Contribution(prev, changes[i]).value.Some?
      then Named(prev, changes[..i]) + [Contribution(prev, changes[i]).value.value]
      else Named(prev, changes[..i])
  {
    assert changes[..i + 1][..i] == changes[..i];
  }

  /** The first error of a prefix is the first error of the whole changelog. */
  lemma {:induction false} FirstErrorPrefix(prev: NetworkAttachmentSpec, changes: seq<Change>, k: nat)
    requires k <= |changes| && FirstError(prev, changes[..k]).Some?
    ensures FirstError(prev, changes) == FirstError(prev, changes[..k])
  {
    if k < |changes| {
      var front := changes[..|changes| - 1];
      assert front[..k] == changes[..k];
      FirstErrorPrefix(prev, front, k);
    } else {
      assert changes[..k] == changes;
    }
  }

  /** A failing record i after i clean ones decides portDiff's result. */
  lemma ErrorAt(prev: NetworkAttachmentSpec, changes: seq<Change>, i: nat)
    requires i < |changes| && FirstError(prev, changes[..i]) == None
    requires Contribution(prev, changes[i]).Err?
    ensures StalePorts(prev, changes) == Err(Contribution(prev, changes[i]).error)
  {
    assert changes[..i + 1][..i] == changes[..i];
    FirstErrorPrefix(prev, changes, i + 1);
  }

  /** One step at a time on the error side: the first error of changes is the first of some record. */
  lemma {:induction false} FirstErrorSpec(prev: NetworkAttachmentSpec, changes: seq<Change>)
    ensures FirstError(prev, changes).None? <==>
      forall i :: 0 <= i < |changes| ==> Contribution(prev, changes[i]).Ok?
    ensures FirstError(prev, changes).Some? ==>
      exists i :: 0 <= i < |changes| && Contribution(prev, changes[i]) == Err(FirstError(prev, changes).value) &&
        forall j :: 0 <= j < i ==> Contribution(prev, changes[j]).Ok?
  {
    if |changes| > 0 {
      var front := changes[..|changes| - 1];
      FirstErrorSpec(prev, front);
      assert forall i :: 0 <= i < |front| ==> front[i] == changes[i];
    }
  }

  /** A name is contributed exactly when some record contributes it. */
  lemma NamedMember(prev: NetworkAttachmentSpec, changes: seq<Change>, n: string)
    ensures n in Named(prev, changes) <==> exists i :: 0 <= i < |changes| && Contribution(prev, changes[i]) == Ok(Some(n))
  {
    if n in Named(prev, changes) {
      var i := NamedFrom(prev, changes, n);
    }
    if exists i :: 0 <= i < |changes| && Contribution(prev, changes[i]) == Ok(Some(n)) {
      var i :| 0 <= i < |changes| && Contribution(prev, changes[i]) == Ok(Some(n));
      NamedBy(prev, changes, n, i);
    }
  }

  /** A name in the result comes from some record. */
  lemma {:induction false} NamedFrom(prev: NetworkAttachmentSpec, changes: seq<Change>, n: string) returns (i: nat)
    requires n in Named(prev, changes)
    ensures i < |changes| && Contribution(prev, changes[i]) == Ok(Some(n))
  {
    var front, last := changes[..|changes| - 1], |changes| - 1;
    if n in Named(prev, front) {
      i := NamedFrom(prev, front, n);
      assert front[i] == changes[i];
    } else {
      i := last;
    }
  }

  /** The name a record contributes is in the result. */
  lemma NamedBy(prev: NetworkAttachmentSpec, changes: seq<Change>, n: string, i: nat)
    requires i < |changes| && Contribution(prev, changes[i]) == Ok(Some(n))
    ensures n in Named(prev, changes)
  {
    NamedNext(prev, changes, i);
    assert n in Named(prev, changes[..i + 1]);
    NamedPrefix(prev, changes, i + 1);
  }

  /** The names of a prefix of the changelog begin the names of the whole. */
  lemma {:induction false} NamedPrefix(prev: NetworkAttachmentSpec, changes: seq<Change>, k: nat)
    requires k <= |changes|
    ensures Named(prev, changes[..k]) <= Named(prev, changes)
    decreases |changes| - k
  {
    if k == |changes| {
      assert changes[..k] == changes;
    } else {
      NamedNext(prev, changes, k);
      NamedPrefix(prev, changes, k + 1);
    }
  }

  /**
   * portDiff's result holds each name once; a name is in it exactly when some
   * deletion or update under Bridge selects that port of the previous spec;
   * and the names come in the order in which they first appear.
   */
  lemma StalePortsSpec(prev: NetworkAttachmentSpec, changes: seq<Change>)
    requires StalePorts(prev, changes).Ok?
    ensures var ports := StalePorts(prev, changes).value;
      NoDuplicates(ports) &&
      (forall n :: n in ports <==> exists i :: 0 <= i < |changes| && Contribution(prev, changes[i]) == Ok(Some(n))) &&
      forall i, j :: 0 <= i < j < |ports| ==>
        ports[i] in Named(prev, changes) && ports[j] in Named(prev, changes) &&
        FirstIndex(Named(prev, changes), ports[i]) < FirstIndex(Named(prev, changes), ports[j])
  {
    var named := Named(prev, changes);
    DedupSpec(named);
    forall n ensures n in Dedup(named) <==> exists i :: 0 <= i < |changes| && Contribution(prev, changes[i]) == Ok(Some(n)) {
      DedupMember(named, n);
      NamedMember(prev, changes, n);
    }
  }

  /** portDiff fails exactly when some record has an error, and then with the first one. */
  lemma StalePortsError(prev: NetworkAttachmentSpec, changes: seq<Change>)
    ensures StalePorts(prev, changes).Err? <==> exists i :: 0 <= i < |changes| && Contribution(prev, changes[i]).Err?
    ensures StalePorts(prev, changes).Err? ==>
      exists i :: 0 <= i < |changes| && Contribution(prev, changes[i]) == Err(StalePorts(prev, changes).error) &&
        forall j :: 0 <= j < i ==> Contribution(prev, changes[j]).Ok?
  {
    FirstErrorSpec(prev, changes);
  }

  /** A "create" record, or any record outside Bridge, changes nothing in the result. */
  lemma {:induction false} IgnoredRecord(prev: NetworkAttachmentSpec, changes: seq<Change>, c: Change)
    requires !Contributes(c)
    ensures StalePorts(prev, changes + [c]) == StalePorts(prev, changes)
  {
    assert (changes + [c])[..|changes|] == changes;
  }

  /** The name a port contributes carries ".<vlan>", ".0" included. */
  lemma ContributedName(prev: NetworkAttachmentSpec, b: nat, p: nat, kind: string)
    requires b < |prev.bridge| && p < |prev.bridge[b].ports|
    requires InInt64(b) && InInt64(p)
    requires kind == "delete" || kind == "update"
    ensures var port := prev.bridge[b].ports[p];
      Contribution(prev, Change(kind, ["Bridge", IntToString(b), "Ports", IntToString(p), "Name"])) ==
        Ok(Some(port.name + "." + IntToString(port.vlan)))
  {
    AtoiIntToString(b);
    AtoiIntToString(p);
  }

  // ---------------------------------------------------------------------------
  // DiffNetwork

  /** An annotation's spec: a serialised spec reads back as itself; other text goes through the JSON decoder. */
  function ParseAnnotation(h: Host, a: Annotation): Option<NetworkAttachmentSpec>
  {
    match a
    case Serialized(spec) => Some(spec)
    case Raw(text) => h.parseJson(text)
  }

  /**
   * The ports DiffNetwork deletes for the stored attachment obj: none when it
   * has no last-applied annotation, a parse error when the annotation is not
   * a spec, otherwise portDiff's result.
   */
  function Stale(h: Host, obj: NetworkAttachment): Result<seq<string>>
  {
    if LastAppliedConfiguration !in obj.meta.annotations then Ok([])
    else
      var a := obj.meta.annotations[LastAppliedConfiguration];
      match ParseAnnotation(h, a)
      case None => Err(Parse(if a.Raw? then a.text else ""))
      case Some(prev) =>
        var d := h.diff(prev, obj.spec);
        if d.Err? then Err(d.error) else StalePorts(prev, d.value)
  }

  /** Stale reads only the annotations and the spec. */
  lemma StaleReads(h: Host, a: NetworkAttachment, b: NetworkAttachment)
    requires a.meta.annotations == b.meta.annotations && a.spec == b.spec
    ensures Stale(h, a) == Stale(h, b)
  {
  }

  function PortDeletion(name: string): seq<Call>
  {
    [PortDeleted(name)]
  }

  /** The steps of deleting the named ports, in order. */
  function DeletionsPlan(names: seq<string>): seq<Call>
  {
    Steps(names, PortDeletion)
  }

  /**
   * DiffNetwork: re-read the attachment, work out the stale ports and delete
   * them in order, stopping at the first port that cannot be deleted.
   */
  method DiffNetwork(h: Host, key: NamespacedName) returns (e: Outcome)
    modifies h`links, h`log
    ensures key !in old(h.attachments) ==> e.Fail? && h.links == old(h.links) && h.log == old(h.log)
    ensures key in old(h.attachments) && Stale(h, old(h.attachments)[key]).Err? ==>
      e.Fail? && h.links == old(h.links) && h.log == old(h.log)
    ensures key in old(h.attachments) && Stale(h, old(h.attachments)[key]) == Ok([]) ==>
      h.links == old(h.links) && h.log == old(h.log)
    ensures e.Pass? ==>
      (key in old(h.attachments) && Stale(h, old(h.attachments)[key]).Ok? &&
       h.log == old(h.log) + DeletionsPlan(Stale(h, old(h.attachments)[key]).value))
    ensures e.Fail? ==>
      (h.log == old(h.log) ||
       (key in old(h.attachments) && Stale(h, old(h.attachments)[key]).Ok? &&
        Aborted(old(h.log), h.log, DeletionsPlan(Stale(h, old(h.attachments)[key]).value))))
    ensures h.links.Keys <= old(h.links).Keys
  {
    var got := h.GetAttachment(key);
    if !got.Found? {
      return Fail(Foreign("client.Get"));
    }
    var obj := got.value;
    if LastAppliedConfiguration !in obj.meta.annotations {
      return Pass;
    }
    var a := obj.meta.annotations[LastAppliedConfiguration];
    var prev := ParseAnnotation(h, a);
    if prev.None? {
      return Fail(Parse(if a.Raw? then a.text else ""));
    }
    var ports := PortDiff(h, prev.value, obj.spec);
    if ports.Err? {
      return Fail(ports.error);
    }
    var names := ports.value;
    assert Stale(h, obj) == Ok(names);
    for i := 0 to |names|
      invariant h.log == old(h.log) + DeletionsPlan(names[..i])
      invariant h.links.Keys <= old(h.links).Keys
      invariant i == 0 ==> h.links == old(h.links)
    {
      e := LinuxBridge.DeletePort(h, names[i]);
      if e.Fail? {
        StepsStopped(old(h.log), names, PortDeletion, i);
        return;
      }
      StepsNext(old(h.log), names, PortDeletion, i);
    }
    assert names[..|names|] == names;
    return Pass;
  }
}
