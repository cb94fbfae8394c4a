/**
 * The custom resources of the network.namecheapcloud.net/v1alpha1 API
 * (Network and NetworkAttachment), the parts of Kubernetes object metadata
 * the controllers read and write, and the KubeVirt VirtualMachineInstance
 * fields the migration controller inspects.
 */
module Api {
  import opened Wrappers

  /** A bridge port: a parent interface and the VLAN carried on it. */
  datatype Port = Port(name: string, vlan: int, mtu: int)

  /** A Linux bridge and the ports to attach to it. */
  datatype Bridge = Bridge(name: string, mtu: int, ports: seq<Port>)

  /** A static route; via is an IP address or a device name. */
  datatype Route = Route(via: string, destination: string, source: string)

  /** Masquerading of virtual machine traffic leaving through a bridge. */
  datatype Masquerade = Masquerade(
    enabled: bool, source: string, ignore: seq<string>, bridge: string, egressNetwork: string)

  /** One requirement of a Kubernetes label selector's matchExpressions. */
  datatype Requirement = Requirement(key: string, operator: string, values: seq<string>)

  /** metav1.LabelSelector */
  datatype LabelSelector = LabelSelector(matchLabels: map<string, string>, matchExpressions: seq<Requirement>)

  datatype NetworkSpec = NetworkSpec(
    bridge: seq<Bridge>, ipMasq: Masquerade, routes: seq<Route>, nodeSelectors: seq<LabelSelector>)

  datatype NetworkAttachmentSpec = NetworkAttachmentSpec(
    bridge: seq<Bridge>, ipMasq: Masquerade, routes: seq<Route>,
    nodeName: string, nodeSelectors: seq<LabelSelector>)

  datatype NamespacedName = NamespacedName(namespace: string, name: string)

  datatype OwnerReference = OwnerReference(
    apiVersion: string, kind: string, name: string, uid: string,
    blockOwnerDeletion: bool, controller: bool)

  /**
   * An annotation value. The only values this system writes are JSON
   * serialisations of an attachment spec; any other text is kept as it is
   * and is parsed by the JSON decoder the host is given.
   */
  datatype Annotation = Serialized(spec: NetworkAttachmentSpec) | Raw(text: string)

  /** The object metadata the controllers use; deleting stands for a set deletionTimestamp. */
  datatype ObjectMeta = ObjectMeta(
    name: string, namespace: string, uid: string,
    finalizers: seq<string>, deleting: bool,
    annotations: map<string, Annotation>, ownerReferences: seq<OwnerReference>)

  datatype Network = Network(meta: ObjectMeta, spec: NetworkSpec)

  datatype NetworkAttachment = NetworkAttachment(meta: ObjectMeta, spec: NetworkAttachmentSpec)

  function Key(meta: ObjectMeta): NamespacedName
  {
    NamespacedName(meta.namespace, meta.name)
  }

  /** A cluster node as the node list returns it. */
  datatype ClusterNode = ClusterNode(name: string, labels: map<string, string>)

  /** One change record of a structural diff: "create", "update" or "delete" and the field path. */
  datatype Change = Change(kind: string, path: seq<string>)

  /** KubeVirt's migration state of a virtual machine instance. */
  datatype MigrationState = MigrationState(completed: bool, failed: bool, targetNode: string)

  /** A VM network; multus holds the Multus network name when the network source is Multus. */
  datatype VmNetwork = VmNetwork(name: string, multus: Option<string>)

  datatype VirtualMachineInstance = VirtualMachineInstance(
    meta: ObjectMeta, networks: seq<VmNetwork>, migrationState: Option<MigrationState>)

  /** The object carried by a watch event, by its dynamic type. */
  datatype Object =
    | AttachmentObject(attachment: NetworkAttachment)
    | VmiObject(vmi: VirtualMachineInstance)
    | OtherObject

  datatype UpdateEvent = UpdateEvent(objectOld: Object, objectNew: Object)
}
