# tabby-cni node agent — a Dafny model

tabby-cni runs one agent per cluster node. The agent turns declarative network resources
into local kernel state: Linux bridges, VLAN sub-interfaces enslaved to them, static routes,
and source NAT ("masquerade"). Masquerade means three things here:

- sysctls for ARP proxying and forwarding;
- an ebtables rule that drops ARP for the floating gateway address;
- a per-bridge `<bridge>-POSTROUTING` chain in the iptables `nat` table.

After a virtual machine migrates to a node, the agent also sends a gratuitous ARP.

The model covers the agent's three reconcilers and everything they call:

- **Network reconciler.** It copies a cluster-wide `Network` into this node's
  `NetworkAttachment` (`<hostname>-<network>`), but only when the node matches one of the
  network's node selectors.
- **NetworkAttachment reconciler.**
  - *Forward path:* it adds a finalizer. It diffs the last-applied spec, stored as a JSON
    annotation, against the current spec, and deletes the VLAN ports that are no longer
    declared. It then creates the bridges, ports, routes and masquerade, and writes the new
    last-applied annotation.
  - *Deletion path:* it tears everything down and removes the finalizer.
- **Migration reconciler.** On a completed, non-failed migration to this node, it sends one
  gratuitous ARP per masquerading Multus network of the VM.

## How the model is built

- **`Host.Host`** is a class holding the node's state and the cluster store:
  - the node state: `links`, `routes`, the ebtables `forward` chain, the iptables `chains`,
    `sysctls` and sent `garps`;
  - the cluster store: `attachments`, `networks`, `nodes` and `vmis`.

  Its methods stand for the foreign libraries the agent calls: netlink, go-iptables, the
  ebtables binary, arping and the Kubernetes client. Each of them can fail without changing
  anything. Add operations answer `Exists` (EEXIST) for a name or destination that is already
  present.
- **Foreign pure functions** are constant function fields of the host. These are IP and CIDR
  parsing, label-selector matching, the structural diff library and JSON decoding of a
  raw annotation.
- **The ghost `log`** records one `Call` entry for each externally visible step that succeeded.
  For every operation that runs a sequence of steps, a function gives its *plan*:
  `CreatePlan`, `DeletePlan`, `MasqPlan`, `ReleasePlan`, `ApplyPlan` and so on.
  - On success the method's contract says the log grew by exactly the plan.
  - On failure it says the log grew by a proper prefix of the plan (`Plans.Aborted`). This is
    the "abort at the first error, retry later" behaviour of the source.
- **Results** are either an `Outcome` (`Pass` or `Fail(error)`) or a `Result<T>`.
  - Places where the Go code would panic are `Fail(Panic(..))`: a nil dereference, or an index
    out of range in `portDiff`.
  - An error return is `Fail`; the platform retries it.
- **Modules** follow the source files:
  - `LinuxBridge` for pkg/bridge, `Ebtables` and `Iptables`;
  - `Firewall`, `NetworkSetup` and `AttachmentDiff` for the helpers in controllers/;
  - `AttachmentController`, `NetworkController`, `Migration` and `Hostname`;
  - plus the support modules `Wrappers`, `Text`, `Seqs`, `Api` and `Plans`.

## Where the code and the description of the system differ (the model follows the code)

- **A VLAN 0 port gets a VLAN interface.** The description says a port with VLAN 0 is
  attached directly. `CreateNetwork` (controllers/network.go:101-112) instead always calls
  `bridge.AddVlan`, which creates `<port>.0` and enslaves it. `DeleteNetwork`
  (controllers/network.go:139-146) deletes `<port>` for VLAN 0, not `<port>.0`.
  `LinuxBridge.VlanZeroName` proves that the two names differ exactly when the VLAN is 0.
  `LinuxBridge.DeletePort` proves that deleting a non-VLAN link fails.
- **The diff names ports `<name>.<vlan>` even for VLAN 0**
  (controllers/network_attachment_diff.go:92-93).
- **Static routes are never deleted** (controllers/network.go:165), and the diff ignores them.
- **Masquerade is torn down twice when enabled.** The attachment finalizer calls
  `DeleteMasquerade` after `DeleteNetwork` whether or not masquerading is enabled
  (controllers/network_attachment_controller.go:99-105). When it is enabled, `DeleteNetwork`
  has already done it.
- **A failed node listing is ignored.** The network reconciler drops the error of its node
  listing (controllers/network_controller.go:86-89) and matches the selectors against empty
  labels.
- **A missing Multus network is an error.** The migration reconciler's lookup of the network
  fails when the network is not found (controllers/vm_migration_controller.go:65-71); it is
  not skipped.
- **A failed existence check reads as "absent".** `AddRule` drops the error of `ipt.Exists`
  (pkg/iptables/iptables.go:111), so a rule whose check failed is inserted again even when its
  chain already holds it (`Iptables.ApplyChecked`, `Iptables.UncheckedDuplicates`). Re-applying
  the rules changes nothing only when every check answers.
- **`LinuxBridge.AddPort` ignores the error of `AddVlan`** and always succeeds
  (pkg/bridge/bridge.go:105-118).
- **`DeleteRuleByDevice` is missing.** `Firewall.DeleteMasquerade` calls
  `ebtables.DeleteRuleByDevice`, which the ebtables file does not define. The model reads it as
  removing every FORWARD rule whose `--logical-out` is the bridge (`Host.WithoutDevice`).

## Model

| member | source | states |
|---|---|---|
| Ebtables.CheckIfRuleExists | pkg/ebtables/ebtables.go:16-24 | true exactly when some line of the listing, trimmed, equals the rule's arguments joined by single spaces |
| Ebtables.MakeFullArgs | pkg/ebtables/ebtables.go:26-28 | the arguments are `-t table op chain` followed by the rule's arguments, unchanged |
| Ebtables.AddRule | pkg/ebtables/ebtables.go:30-62 | on success FORWARD is the old chain if it already listed the rule, otherwise the rule inserted at its head; on failure (of the listing or of the insert) FORWARD is unchanged |
| Ebtables.InsertShape | pkg/ebtables/ebtables.go:53-55 | the insert targets table filter, operation -I, chain FORWARD, and puts the rule line in front of the chain |
| Ebtables.EnsuredListed | pkg/ebtables/ebtables.go:38-59 | after AddRule succeeds, a new listing of FORWARD shows the rule |
| Ebtables.AddRuleIdempotent | pkg/ebtables/ebtables.go:38-59 | a second AddRule of the same rule changes nothing |
| Iptables.RenderLength | pkg/iptables/iptables.go:24-48 | the rendered rule has one flag and one value for each non-empty field |
| Iptables.RenderDecode | pkg/iptables/iptables.go:24-48 | reading the rendered flags back gives source, destination, jump, out-interface and comment; table, in-interface and chain are never rendered |
| Iptables.RenderOrder | pkg/iptables/iptables.go:24-48 | flags come in the fixed order -s, -d, -j, -o, comment, each at most once |
| Iptables.EgressInterface | pkg/iptables/iptables.go:57-73 | no egress network gives the empty name; an unparsable CIDR is a parse error; a name found is that of an existing link; the only other errors are a missing egress route and a panic |
| Iptables.CollectRules | pkg/iptables/iptables.go:76-106 | the rule list is the jump from POSTROUTING, then the MASQUERADE rule (scoped to the egress interface when there is one), then one ACCEPT per ignored destination in order |
| Iptables.BuildRulesFor | pkg/iptables/iptables.go:83-106 | the rules aimed at the bridge's chain are the MASQUERADE rule followed by the ACCEPT rules |
| Iptables.MasqueradeNotAccept | pkg/iptables/iptables.go:83-106 | the MASQUERADE rule is never one of the ACCEPT rules |
| Iptables.InsertOne | pkg/iptables/iptables.go:108-128 | one check-then-insert: a rule found is left alone; otherwise, also when the check failed, the rule goes to the head of its existing chain; a failed insert changes nothing |
| Iptables.InsertRules | pkg/iptables/iptables.go:108-130 | on success every chain named by a rule existed and the chains are the inserts applied in turn, where a rule whose existence check answered "present" is skipped and every other rule is inserted at the head, even one already there when its check failed |
| Iptables.ApplyCheckedAnswered | pkg/iptables/iptables.go:108-130 | when every existence check answered, the run inserts exactly the rules absent from their chains |
| Iptables.UncheckedDuplicates | pkg/iptables/iptables.go:111-128 | a failed existence check for a rule already in its chain puts the rule in front a second time, where an answered check changes nothing |
| Iptables.AddRule | pkg/iptables/iptables.go:50-133 | on success the chains are the old ones with the bridge chain created and the rules inserted, one per existence check, a failed check inserting again; when all checks answered, the absent rules are inserted once each; an unparsable egress CIDR or a missing egress route is an error that leaves the chains unchanged |
| Iptables.AddRuleIdempotent | pkg/iptables/iptables.go:108-130 | applying the rule set a second time, with every existence check answering, changes no chain |
| Iptables.FreshChainOrder | pkg/iptables/iptables.go:76-130 | on a fresh chain, when every existence check answered, the bridge chain holds the distinct ACCEPT rules, last one first, and the MASQUERADE rule last, so exemptions are matched before NAT |
| Iptables.ApplyCheckedFreshChain | pkg/iptables/iptables.go:108-130 | into an empty chain, whatever the checks answered, the first rule sent there ends up last and every rule in front of it is one sent after it |
| Iptables.FreshChainOrderChecked | pkg/iptables/iptables.go:76-130 | on a fresh chain, whatever the existence checks answered, the MASQUERADE rule is last, only once, and every rule in front of it is an ACCEPT rule, so exemptions are still matched before NAT |
| Iptables.PurgeChain | pkg/iptables/iptables.go:135-164 | on success the chains are those the POSTROUTING listing's purge leaves: for each listed line naming the bridge chain, the rule made of the line's tokens after the first two is deleted and the chain cleared and deleted; a failed listing changes nothing |
| Iptables.PurgeLine | pkg/iptables/iptables.go:146-160 | one listing line: success leaves the chains `Iptables.PurgeStep` gives (a line naming the bridge chain has the rule of its tokens after the first two deleted from POSTROUTING and then the bridge chain removed; any other line changes nothing); the only errors are the panic on a line of fewer than two tokens and a failed delete or chain removal |
| Iptables.ListedTokens | pkg/iptables/iptables.go:149-150 | the tokens taken from a listed rule after `-A POSTROUTING` are that rule's own, when none of them holds a space |
| Iptables.ListedJoin | pkg/iptables/iptables.go:149-150 | `-A`, `POSTROUTING` and a non-empty rule's tokens, joined by spaces, are that rule's listing line |
| Iptables.PurgeLeavesUnmentioned | pkg/iptables/iptables.go:146-161 | when every POSTROUTING rule reads back from its listing line, the purge leaves in POSTROUTING exactly the rules that do not name the bridge chain, in order, and leaves every chain other than POSTROUTING and the bridge chain as it was |
| Iptables.PurgeRemovesJump | pkg/iptables/iptables.go:146-161 | on such a table the jump rule from POSTROUTING to the bridge chain is gone after the purge |
| Iptables.PurgeNoMention | pkg/iptables/iptables.go:146-161 | when no POSTROUTING rule names the bridge chain, purging changes nothing |
| Iptables.PurgeDropsChain | pkg/iptables/iptables.go:146-161 | when some listed line names the bridge chain, that chain is gone afterwards |
| LinuxBridge.RemoveElement | pkg/bridge/bridge.go:177-194 | in place on an array: the first n slots become the old contents with the first occurrence of the value replaced by the last element, and the tail is untouched |
| LinuxBridge.SwapRemovedShape | pkg/bridge/bridge.go:177-194 | an absent value leaves the list as it was; otherwise the list is one shorter and only the removed slot changes, taking the last element |
| LinuxBridge.SwapRemovedMultiset | pkg/bridge/bridge.go:177-194 | swap-removal removes exactly one occurrence of the value and keeps everything else |
| LinuxBridge.LeftoverMultiset | pkg/bridge/bridge.go:66-81 | the ports left after removing the bridge's own ports are the listed ports minus the own ports, as multisets |
| LinuxBridge.LeftoverMembers | pkg/bridge/bridge.go:66-81 | for a duplicate-free port listing, a port is left over exactly when it is listed and not one of the bridge's own |
| LinuxBridge.Create | pkg/bridge/bridge.go:25-49 | on success the bridge exists and is up, created with the requested MTU unless a link of that name already existed, which is kept; a failure leaves an existing link alone; no link disappears |
| LinuxBridge.Remove | pkg/bridge/bridge.go:51-88 | a missing bridge is success with nothing changed, unless the lookup itself fails; success on an existing bridge deletes it and frees its ports, and every port it had enslaved was one of its own; the StillAttached error lists exactly the enslaved ports that are not the bridge's own |
| LinuxBridge.RemoveOwnPorts | pkg/bridge/bridge.go:66-76 | removing each of the bridge's own port names from the listing in turn, in the order of the bridge's ports, leaves `LinuxBridge.Leftover` of the listing and those names |
| LinuxBridge.AddPort | pkg/bridge/bridge.go:105-118 | an MTU of 0 becomes the bridge's MTU; VLAN 0 does nothing; no link is deleted and a missing parent changes nothing; when the VLAN is ensured, the links are the old ones with the VLAN interface added (or kept) and set up; the call always succeeds, even when the VLAN is not created |
| LinuxBridge.DeletePort | pkg/bridge/bridge.go:120-143 | a missing link is success with nothing changed, unless the lookup itself fails; an existing link that is not a VLAN is refused and kept; success removes the VLAN after releasing it from its master; no link is created |
| LinuxBridge.AddVlan | pkg/bridge/bridge.go:145-175 | on success the interface `<iface>.<vlan>` exists and is up, created with the requested parent, VLAN id and MTU unless it already existed; a missing parent is an error that changes nothing |
| LinuxBridge.UnlinkedReleased | pkg/bridge/bridge.go:134-140 | releasing a port from its master before deleting it leaves the same links as deleting it directly |
| LinuxBridge.VlanZeroName | controllers/network.go:139-146 | the name deleted for a port differs from the interface created for it exactly when the VLAN is 0 |
| Firewall.SetSysctls | controllers/firewall.go:23-35 | on success proxy_arp=1 and proxy_arp delay=0 are set for the bridge and ip_forward=1; on failure only a prefix of those writes happened |
| Firewall.NatAndAnnounce | controllers/firewall.go:45-53 | on success the NAT chain is in place (as `Iptables.AddRule` states it) and one gratuitous ARP for the gateway address was sent on the bridge; on failure only a prefix of those steps happened |
| Firewall.PrepareBridge | controllers/firewall.go:21-43 | on success the proxy ARP, proxy delay and forwarding sysctls hold 1, 0 and 1 and the ARP-drop rule is in FORWARD, done in that order; on failure only a prefix of those steps happened |
| Firewall.EnableMasquerade | controllers/firewall.go:21-56 | on success the sysctls, the ARP-drop rule for the gateway address, the NAT rules and the gratuitous ARP are all in place, done in that order; on failure only a prefix of those steps happened |
| Firewall.DeleteMasquerade | controllers/firewall.go:58-69 | on success the bridge's ebtables rules are gone and its NAT chain is purged; a failure before any step changes nothing |
| NetworkSetup.EqualCIDR | controllers/network.go:17-31 | equal networks compare equal, and a missing network equals only a missing network |
| NetworkSetup.IpEqualCanonical | controllers/network.go:24-27 | two addresses compare equal exactly when their canonical forms are identical (IPv4 and IPv4-in-IPv6 agree) |
| NetworkSetup.EqualCIDRCanonical | controllers/network.go:17-31 | two networks compare equal exactly when their canonical forms are identical |
| NetworkSetup.EqualCIDRTransitive | controllers/network.go:17-31 | the comparison is transitive and symmetric |
| NetworkSetup.FindSource | controllers/network.go:67-71 | the source address is that of the last route whose destination equals the network |
| NetworkSetup.LastSrcIsLast | controllers/network.go:67-71 | the last matching route decides the source, whatever comes before it |
| NetworkSetup.LastSrcNone | controllers/network.go:67-75 | with no matching route there is no source, so AddRoute fails |
| NetworkSetup.AddRoute | controllers/network.go:33-88 | an unparsable destination, an unparsable gateway that names no link, or a source network with no source address is an error; a gateway address gives a universe-scope route through it, a device name a link-scope route on that device; the route is appended, or one to that destination already exists; failure changes no route |
| NetworkSetup.SetUpPort | controllers/network.go:102-112 | on success the port's VLAN exists and is enslaved to the bridge, the ports done earlier stay enslaved, and no other link changes master |
| NetworkSetup.SetUpPorts | controllers/network.go:101-113 | on success every port's VLAN is enslaved to the bridge, in the order declared, and only those VLANs change master |
| NetworkSetup.SetUpBridge | controllers/network.go:95-114 | on success the bridge exists, all its ports' VLANs are enslaved to it, and only those VLANs change master |
| NetworkSetup.EnslavedKept | controllers/network.go:95-114 | a VLAN enslaved before a step that changes masters only outside it stays enslaved |
| NetworkSetup.SetUpBridges | controllers/network.go:95-114 | on success every declared bridge exists, set up in order; when no VLAN is declared by two bridges, every bridge's VLANs end enslaved to it |
| NetworkSetup.AddRoutes | controllers/network.go:117-122 | the routes are added in order, stopping at the first error |
| NetworkSetup.CreateNetwork | controllers/network.go:90-133 | on success bridges, then routes, then masquerade (only when enabled) were applied in that order; failure stops at the first error; no link is deleted; on success every bridge exists and, when no VLAN is declared by two bridges, holds its VLANs; with masquerading off the firewall, the sysctls and the ARP announcements are untouched; with it on, success leaves the sysctls, the ARP-drop rule, the NAT rules and one gratuitous ARP as `Firewall.EnableMasquerade` states |
| NetworkSetup.TearDownBridge | controllers/network.go:139-155 | on success each port's delete name is gone and the bridge is removed with no ports counted as its own |
| NetworkSetup.TearDownBridges | controllers/network.go:138-156 | on success every declared bridge and its ports are gone, taken down in order |
| NetworkSetup.DeleteNetwork | controllers/network.go:135-168 | on success the bridges and ports are gone and, when masquerading is enabled, the bridge's FORWARD rules are gone and the nat table is the POSTROUTING purge that `Iptables.PurgeChain` states; with masquerading off the firewall is untouched; routes are never touched and no link is created |
| AttachmentDiff.PortOf | controllers/network_attachment_diff.go:77-97 | a delete or update record whose path mentions Bridge contributes the name `<name>.<vlan>` of the previous spec's port at path indexes 1 and 3; for such a record a short path, a non-number or an index out of range is an error; every other record contributes nothing |
| AttachmentDiff.PortDiff | controllers/network_attachment_diff.go:65-102 | a diff error is returned as is; otherwise the result is the stale-port list of the change records |
| AttachmentDiff.StalePortsSpec | controllers/network_attachment_diff.go:74-101 | the stale ports have no duplicates, are exactly the ports some change record names, and keep the order of their first mention |
| AttachmentDiff.StalePortsError | controllers/network_attachment_diff.go:81-91 | the diff fails exactly when some record fails, and the error is that of the first failing record |
| AttachmentDiff.FirstErrorSpec | controllers/network_attachment_diff.go:74-97 | the first error is the error of the earliest failing record, and there is none exactly when every record succeeds |
| AttachmentDiff.NamedMember | controllers/network_attachment_diff.go:74-97 | a name is collected exactly when some record contributes it |
| AttachmentDiff.NamedFrom | controllers/network_attachment_diff.go:74-97 | every collected name comes from some record that contributes it |
| AttachmentDiff.NamedBy | controllers/network_attachment_diff.go:74-97 | the name any record contributes is collected |
| AttachmentDiff.IgnoredRecord | controllers/network_attachment_diff.go:77-78 | a record that is not a delete or update under Bridge changes nothing |
| AttachmentDiff.ContributedName | controllers/network_attachment_diff.go:79-93 | a delete or update of `Bridge.b.Ports.p.Name` contributes that previous port's VLAN interface name |
| Text.AtoiIntToString | controllers/network_attachment_diff.go:104-111 | a rendered index parses back to itself |
| AttachmentDiff.DiffNetwork | controllers/network_attachment_diff.go:17-63 | a missing object or a failed diff is an error with nothing done; otherwise the stale ports are deleted in order, stopping at the first error; an empty diff changes nothing; no link is created |
| AttachmentDiff.StaleReads | controllers/network_attachment_diff.go:28-45 | the stale ports depend only on the annotations and the spec, so a re-read object with the same annotations and spec gives the same answer |
| AttachmentController.FinalizedSpec | controllers/network_attachment_controller.go:121-132 | adding the finalizer keeps spec, annotations and key, does nothing when it is already there, and removing it afterwards leaves the other finalizers |
| AttachmentController.CommittedReadsBack | controllers/network_attachment_controller.go:148-169 | after the commit, the only annotation is the last-applied one, and the next diff is computed from the spec just applied |
| AttachmentController.NewNetworkAttachment | controllers/network_attachment_controller.go:171-196 | the attachment is named `<hostname>-<network>` in the request's namespace, copies the network's bridges, routes, masquerade and selectors, names this node, and has exactly one controlling owner reference to the network |
| AttachmentController.FilterNetworkAttachmentEvent | controllers/network_attachment_controller.go:198-218 | an update is dropped exactly when both objects are attachments, the new one is not being deleted, and the spec did not change |
| AttachmentController.TearDown | controllers/network_attachment_controller.go:99-105 | DeleteNetwork then DeleteMasquerade, stopping at the first error; no link is created |
| AttachmentController.Release | controllers/network_attachment_controller.go:85-117 | on success the network is torn down and the finalizer removed, so an object being deleted leaves the store once no other finalizer remains; on failure the store is unchanged and only a prefix of the teardown happened |
| AttachmentController.EnsureFinalizer | controllers/network_attachment_controller.go:121-132 | the finalizer is added with one update when missing; a failed update changes nothing |
| AttachmentController.LastAppliedConfig | controllers/network_attachment_controller.go:148-169 | a missing object is an error; success stores the object with its last-applied annotation set to its current spec; failure changes nothing |
| AttachmentController.ApplyFinalized | controllers/network_attachment_controller.go:133-143 | on success the stale ports were deleted, the network created, and the applied spec recorded; on failure the store is unchanged |
| AttachmentController.Apply | controllers/network_attachment_controller.go:121-143 | on success the finalizer is in place, the stale ports are deleted, the network is created and the applied spec is recorded, in that order; on failure the store holds at most the added finalizer; when the finalizer could not be added nothing changed |
| AttachmentController.Reconcile | controllers/network_attachment_controller.go:58-146 | no hostname is an error; an object of another node, or a missing one, is left alone; a deleted object with the finalizer is released and let go, one without it is left alone; otherwise the forward path runs, and the annotation changes only when the whole apply succeeded |
| NetworkController.FirstLabelsSpec | controllers/network_controller.go:165-172 | the labels are those of the first node with the name, and there are none exactly when no node has it |
| NetworkController.NodeLabels | controllers/network_controller.go:156-173 | a successful listing gives the labels of this node, if any |
| NetworkController.ShouldRun | controllers/network_controller.go:96-102 | true exactly when some selector matches the labels |
| NetworkController.SyncedSpec | controllers/network_controller.go:128-141 | syncing copies exactly bridges, routes and masquerade, keeps node name, selectors and metadata, is a no-op exactly on agreement, and is idempotent |
| NetworkController.NewIsSynced | controllers/network_controller.go:109-141 | a newly created attachment is already in sync with its network |
| NetworkController.SyncAttachment | controllers/network_controller.go:128-141 | the attachment is synced, and an update is issued exactly when that changed it |
| NetworkController.ReconciledSpec | controllers/network_controller.go:105-151 | only this node's attachment of the network is touched; it is created when missing and otherwise synced; it stays unless it was being deleted with no finalizers and had to be updated |
| NetworkController.ReconciledIdempotent | controllers/network_controller.go:128-150 | a second run writes nothing and changes nothing |
| NetworkController.SyncNetwork | controllers/network_controller.go:106-150 | on success the store is the reconciled store after one create or one update (or none); a failure changes nothing |
| NetworkController.Reconcile | controllers/network_controller.go:59-154 | no hostname is an error; a missing network or an ineligible node changes nothing; otherwise the store is reconciled; a failure changes nothing |
| Hostname.GetHostname | controllers/network_controller.go:182-194 | a non-empty NODE_NAME wins; otherwise the operating system's host name, or its error |
| Migration.QualifiedNetworkName | controllers/vm_migration_controller.go:98-112 | `namespace/name` splits into namespace and name |
| Migration.BareNetworkName | controllers/vm_migration_controller.go:98-112 | a name without a slash has the empty namespace |
| Migration.NestedNetworkName | controllers/vm_migration_controller.go:101-109 | a name with two slashes is taken as a bare name, its first segment |
| Migration.FilterMigrationEvent | controllers/vm_migration_controller.go:115-169 | an update passes exactly when both objects are VMIs, the new migration state is completed and not failed, the old one was not, and the target node is this host |
| Migration.NoRepeatedAnnouncement | controllers/vm_migration_controller.go:149-152 | two consecutive updates never both pass, so one migration is announced once |
| Migration.Admits | controllers/vm_migration_controller.go:174-187 | the watch admits exactly the update events that pass the filter |
| Migration.SentSpec | controllers/vm_migration_controller.go:82-89 | one ARP is sent per announcement, for that address on that interface |
| Migration.AnnouncementsSpec | controllers/vm_migration_controller.go:58-91 | at most one announcement per VM network, each for the gateway address on the bridge of a masquerading network the VM uses, and every such network announced |
| Migration.AnnounceOne | controllers/vm_migration_controller.go:59-90 | success means the Multus network was found and its announcement, if any, was sent; a failure sends nothing |
| Migration.Announce | controllers/vm_migration_controller.go:58-91 | the networks are announced in order up to the first error; success means every network was resolved and announced |
| Migration.Reconcile | controllers/vm_migration_controller.go:45-94 | a missing VMI is an error with nothing sent; success sends every announcement of the VM's networks; a failure has sent those of a prefix of the networks |

## Left out

- cmd/main.go, the CNI exec plugin, is left out. It is stdin/stdout plumbing and JSON parsing; its bridge, VLAN and route logic repeats controllers/network.go. Its call to a three-argument `iptables.AddRule` does not match pkg/iptables, so the code it actually links against is not part of this model.
- controllers/vrouter.go is left out. It does network-namespace and veth plumbing tied to OS-thread locking, and is mostly stubs.
- pkg/common/config.go is left out. It parses environment variables through a library.
- Controller wiring is left out except for the migration watch's predicate (`Migration.Admits`). This covers the `SetupWithManager` builder calls, the client transport and scheme registration; they are framework registration, not behaviour of the agent.
- Foreign libraries are operations of `Host.Host` with nondeterministic failure, not code: netlink, sysctl writes, the go-iptables library, the ebtables binary run through `exec.Command`, arping and the Kubernetes client. Their own logic is not modelled.
- Kernel route selection (`netlink.RouteGet`) can return any routes. The order of a bridge's port listing (`os.ReadDir` on sysfs) is left open.
- IP addresses are canonical values, so IPv4 and its IPv4-in-IPv6 form compare equal (`NetworkSetup.IpEqualCanonical`). The 16-byte representation of `net.IP` is not modelled.
- IP and CIDR parsing, the structural diff library, JSON decoding of a raw annotation and label-selector matching are uninterpreted functions of the host.
- The JSON encoding of a spec is modelled as a lossless round trip, so `json.Marshal`'s error path (controllers/network_attachment_controller.go:156-160) is not modelled. A spec of strings, numbers and booleans always encodes.
- An invalid label selector is not modelled: the source drops the conversion error. Selectors are values the matching function accepts.
- The definition of `ebtables.DeleteRuleByDevice` is not part of this model. Its effect is modelled as removing the FORWARD lines that name the device as logical output.
- Logging and `fmt.Println` output are left out: they have no effect on state.
- Concurrency, watches, requeue timing and optimistic-concurrency conflicts on updates are left out. Each reconcile runs alone against the store, so an update fails but does not race.
- The requeue exits after `AddFinalizer` or `RemoveFinalizer` report no change are left out. In a sequential run the presence of the finalizer was just checked, so they cannot be taken.
- Ebtables.EnsuredListed: stated only for a rule whose joined line has no newline and no surrounding spaces (`Clean`), which is how ebtables prints a rule.
- Ebtables.AddRuleIdempotent: stated only for `Clean` rules, as above.
- Iptables.AddRule: the egress interface is a ghost output, because kernel route selection is not modelled. The contract says the chains match the rules built for that interface; `Iptables.EgressInterface` states that a resolved interface is an existing link.
- Iptables.InsertRules: on failure the contract does not say which rules were already inserted.
- Iptables.FreshChainOrder: "the distinct ACCEPT rules, last one first" is stated only for runs whose existence checks all answered; a failed check can repeat a rule. `Iptables.FreshChainOrderChecked` states what holds for every run.
- Iptables.PurgeLeavesUnmentioned: stated only for POSTROUTING rules whose tokens hold no space, because the purge splits listing lines at spaces; a token with a space (a quoted comment, say) is not rebuilt and its rule is not deleted.
- Iptables.AddRuleIdempotent: stated only for runs whose existence checks all answered. A failed check inserts a rule again (`Iptables.UncheckedDuplicates`), so a run with failed checks is not idempotent.
- NetworkSetup.SetUpBridges: enslavement of every bridge's VLANs is stated only when no VLAN is declared by two bridges. Otherwise the later bridge takes the VLAN over.
- Firewall.EnableMasquerade: on failure only the calls made are stated (a prefix of the plan). The state of each table is stated on success.
- NetworkSetup.AddRoutes: states the calls made and their order. The resulting route table is stated step by step by `NetworkSetup.AddRoute`.
- AttachmentController.Apply: on failure the contract states what the store holds, not which prefix of the network set-up ran. `NetworkSetup.CreateNetwork` and `AttachmentDiff.DiffNetwork` state that for their own steps.
- NetworkController.Reconcile: with selectors present, the node is only known to match through its own labels or through empty labels. The source ignores a failed node listing, and the model lets either happen.
- 64-bit integers: indexes are assumed to fit in `int64` where they are rendered and parsed back (`Text.InInt64`). Go's `strconv.Atoi` follows the platform's `int`.
