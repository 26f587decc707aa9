# DPU operator: verified models

The operator runs Data Processing Units on a Kubernetes cluster. Its controllers turn custom resources
into pods and annotations, a daemon on each node manages the node's DPUs and talks to a vendor plugin,
and a CNI plugin hands virtual functions (VFs) to pods. This project models the parts of it that keep
state across calls, in Dafny, and proves what every call, every run and every failure leaves behind.

Code that updates state in the operator is a class with the same fields and methods here; each method is
proved against a specification that says what the new state is, and lemmas and run methods say what follows
from it. External systems are small objects: an OVS bridge is a port set and a prioritised flow table
(OpenFlow Switch Specification 1.0, sections 3.4 and 4.6), the API server is a map, the kernel a table of
links, lock files and caches are maps. Their calls may fail. The outcomes are a finite script of booleans
that is arbitrary in every theorem. Contracts say how many of the next outcomes must be good for a call to
succeed (`AllWork`); one that speaks of an empty script says what happens when nothing fails.
Go's map iteration is an arbitrary choice of the next key, so a contract holds for every order.

| files | what they cover |
|---|---|
| `OpenFlow`, `MarvellFlows`, `MarvellVsp`, `MarvellRuns` | the Marvell plugin and its flow table: table and ports as a function of the store, packet meaning, order independence |
| `Sfc`, `GoMaps`, `Strings` | the service function chain controller: convergence, confluence, end state |
| `Sriov` | host VF allocation: exclusivity over all runs, refinement of a machine without lock files |
| `VfCount`, `VfApply`, `Decimal` | the VF-count pipeline from configs through annotations to the plugin, and the exact condition under which it works |
| `DpuCrSync` | syncing DPU resources to a fixpoint, readiness, shutdown |
| `SideManagers`, `NfPairing`, `Sessions` | what is started is stopped exactly once, what is created is deleted under the same name |
| `NfServed` | the pairing of MACs joined to the Marvell plugin |
| `LinkMove` | moving a netdev into a container and back, with nested undo |
| `CapabilityWalk` | the walk over PCI Express extended capabilities |
| `Registry` | the plugin registry and its device index |
| `NetSec`, `BridgePortName` | the NetSec plugin's shared device records; the port name that host and plugins exchange |
| `CniArgs` | printing and parsing CNI_ARGS |
| `Common` | options, map lookup, the script of outcomes |

## Where the code does not do what one would expect

Each of these is a theorem, not an observation; the member is named.

- Deleting a Marvell bridge port whose VF is not stored, while a network function is active, looks its MAC
  up as "" and empties the function's input and output port. `MarvellVsp.Vsp.DeleteBridgePort` says that the
  bridge is in sync after a delete if and only if there is no function or the VF was stored.
- The same delete replies with neither result nor error (`Silent`) if and only if a function is active, the
  first flow command worked and the second or third did not. Store and ports are then as before, and the bridge
  is in sync if and only if the VF was not stored and it was the second command that failed.
- With MAC learning on, the NORMAL flow decides every packet: `MarvellFlows.PacketMeaning`.
- If a config's name is the dotted namespace and name of another config, the first removes the second's
  annotation as its own legacy key. `VfCount.SettlesIffClashFree` says that annotations settle on every
  schedule if and only if there is no such pair; `VfCount.ClashLosesCount` is a concrete one. The marks that
  configs leave on the DPUs they select are lost in the same way, whether or not a count is set
  (`VfCount.MarksSettleIffApart`).
- A sync of which everything but the list fails counts as "no change", so the daemon reports ready.
  `DpuCrSync.ReadyIsTruthfulIffSynced` says that readiness can be trusted under every pattern of failures if
  and only if the resources were in sync before; `DpuCrSync.ReadyWithoutCr` is a daemon that is ready with
  nothing in the cluster.
- The capability walk multiplies the next pointer by four; section 7.6.3 of the PCI Express Base
  Specification 5.0 makes it a byte offset. `CapabilityWalk.ScalingHarmlessIff` says for which first
  header with an aligned pointer this never matters: if and only if the header is zero, is the serial
  number's own, or has a pointer that is null or leads out of the space. `CapabilityWalk.ScaledPointerMisses`
  is a space whose serial number is missed. All theorems about the walk hold for any scale.
- A VF delete that gets past IPAM drops the cached conf whether or not it released the VF. If the namespace
  is live the VF is then stranded (`Sriov.Manager.CmdDel`), and no later delete frees it (`Sriov.Run`): by
  `Sriov.FreeableIffNamed` a delete can free a VF if and only if a live container's cached conf names it.
- When nothing fails but a name cannot be given, a move is undone except that a device that was up stays down
  in two cases: on the way in if the temporary name is taken on the host, on the way out if it is taken there
  and free in the container (`LinkMove.Mover.MoveIn`, `LinkMove.Mover.MoveOut`).
- Setting the number of NetSec VFs while ports exist splits the chain's records from the table's:
  `NetSec.Vsp.RenewalAligns` says exactly when.
- Two chains of one namespace can want one pod, such as chain "a" with function "b-c" and chain "a-b" with
  function "c", which are then never both settled (`Sfc.DashedNamesNeverSettle`). `Sfc.BothSettleIff` says that
  two chains can be settled at once if and only if no names of theirs meet, whatever the hashes.
- The position of a Marvell VF is checked against the end of the list only. `BridgePortName.MarvellLeavesListIff`
  says that a printed name is accepted with a position outside the list if and only if its VF is the last
  64-bit number, whose successor wraps.
- The Marvell plugin serves one network function at a time. `NfServed.PairingIsLegalIff` says that what the
  pairing asks for is served as intended if and only if the MACs are of known devices and at no moment two
  namespaces have two interfaces.
- An add over a cached conf of the same container and interface strands the VF named there: by `Sriov.Handle`
  that and a delete that gets past IPAM without releasing are the only events that strand one.

## Model

| member | source | states |
|---|---|---|
| MarvellVsp.Bridge.Init | internal/daemon/vendor-specific-plugins/marvell/ovs-dp/ovsdp.go:86-126 | a new bridge holds the RPM port and realises the empty store, with NORMAL at priority 65535 iff MAC learning is on |
| MarvellVsp.Bridge.AddFlowRule | internal/daemon/vendor-specific-plugins/marvell/ovs-dp/ovsdp.go:140-169 | which of the three rule shapes, with which priority, is added; a failed command changes nothing |
| MarvellVsp.Bridge.DeleteFlowRule | internal/daemon/vendor-specific-plugins/marvell/ovs-dp/ovsdp.go:170-189 | a non-strict delete by source port and, if given, MAC; the destination plays no part |
| MarvellFlows.TableIsDetermined | internal/daemon/vendor-specific-plugins/marvell/main.go:373-644 | the flow table is a function of the stored VFs and the active network function |
| MarvellFlows.AddVfRules | internal/daemon/vendor-specific-plugins/marvell/main.go:408-431 | a VF's three rules take the table for a set of VFs to the table for one more and disturb no other rule |
| MarvellFlows.DelVfRules | internal/daemon/vendor-specific-plugins/marvell/main.go:461-487 | the three non-strict deletes remove exactly that VF's rules, though each of them may match more |
| MarvellFlows.DelUnknownVf | internal/daemon/vendor-specific-plugins/marvell/main.go:464-485 | for a VF that is not stored they empty the network function's ports, so the table is not the wanted one any more |
| MarvellFlows.EndNf | internal/daemon/vendor-specific-plugins/marvell/main.go:601-630 | when every port of a network function is emptied, the table is the one without it |
| MarvellFlows.PacketMeaning | internal/daemon/vendor-specific-plugins/marvell/main.go:408-431 | every packet has a unique deciding flow: VF to input, input to the owner of the MAC, output hairpins for stored MACs and goes to RPM otherwise; NORMAL on a learning bridge |
| MarvellVsp.Vsp.CreateBridgePort | internal/daemon/vendor-specific-plugins/marvell/main.go:373-447 | done iff the name is known and all its commands work; then store, ports and flows are in sync with exactly the new VF added; failures only add rules |
| MarvellVsp.Vsp.DeleteVfFlows | internal/daemon/vendor-specific-plugins/marvell/main.go:461-487 | flows without exactly that VF if it is stored, the emptied ports if it is not; failed iff the first command fails, silent iff it works and a later one does not, and then in sync iff the VF is not stored and the second command failed |
| MarvellVsp.Vsp.DeleteBridgePort | internal/daemon/vendor-specific-plugins/marvell/main.go:451-512 | the VF leaves store and bridge; the flows are in sync iff no network function is active or the VF was stored; when it succeeds and when the reply is silent, and what holds then |
| MarvellVsp.MacOf | internal/daemon/vendor-specific-plugins/marvell/main.go:464-470 | a stored VF's MAC if it is stored, "" otherwise |
| MarvellVsp.Without | internal/daemon/vendor-specific-plugins/marvell/main.go:494-503 | the in-place shift drops exactly the entry of that name |
| MarvellVsp.Vsp.CreateNetworkFunction | internal/daemon/vendor-specific-plugins/marvell/main.go:516-523 | from a state in sync to one in sync, with the pair active and the VFs kept |
| MarvellVsp.Vsp.AddNetworkFunction | internal/daemon/vendor-specific-plugins/marvell/main.go:527-589 | from a store in sync without a function to one in sync with it, whatever VFs the store holds |
| MarvellVsp.Vsp.StoreNetworkFunction | internal/daemon/vendor-specific-plugins/marvell/main.go:538-586 | three rules for every VF stored already and the uplink pair, whether or not the store held an entry |
| MarvellVsp.Vsp.DeleteNetworkFunction | internal/daemon/vendor-specific-plugins/marvell/main.go:590-597 | back in sync without a network function; the store is not touched |
| MarvellVsp.Vsp.DeleteNetworkFunctionPort | internal/daemon/vendor-specific-plugins/marvell/main.go:601-644 | the non-strict deletes by port remove all rules of the function and no other |
| MarvellVsp.Vsp.DeleteAllFlows | internal/daemon/vendor-specific-plugins/marvell/main.go:602-630 | which ports are emptied so far, on every failure path |
| MarvellRuns.Serve | internal/daemon/vendor-specific-plugins/marvell/main.go:373-644 | after any legal run of the four calls the bridge is exactly what the stored state demands, and the stored state is that of the run |
| MarvellRuns.EveryPacketIsRouted | internal/daemon/vendor-specific-plugins/marvell/main.go:408-431 | in every such state one flow decides each packet and routes it as intended |
| MarvellRuns.CreatesAreLegal | internal/daemon/vendor-specific-plugins/marvell/main.go:373-523 | whether a run of creates is legal does not depend on its order |
| MarvellRuns.OrderIsIrrelevant | internal/daemon/vendor-specific-plugins/marvell/main.go:373-589 | any interleaving of the same bridge-port and network-function creates ends with the same store and the same flow table |
| MarvellRuns.NfRoundTrip | internal/daemon/vendor-specific-plugins/marvell/main.go:516-644 | creating and deleting a network function is the identity on flows and ports |
| Sfc.DesiredPodsFit | internal/controller/servicefunctionchain_controller.go:87-100 | one pod per function name, labelled for the chain, carrying the hash of its own spec and networks |
| Sfc.Reconciler.BuildDesired | internal/controller/servicefunctionchain_controller.go:87-100 | the loop builds exactly the map of desired pods; each function that is the last of its name has a pod with its labels, image, counts, resource and networks (`FunctionsHavePods`) |
| Sfc.DefaultIsTheSides | internal/controller/servicefunctionchain_controller.go:204-219 | without networks a pod gets "dpunfcni-conf" iff the side is "dpu", or none of the three sides and "dpu" is "true", in any letter case, and "default-sriov-net" otherwise |
| Sfc.FunctionPodFits | internal/controller/servicefunctionchain_controller.go:136-202 | image, node selector, container name, resource, requests and limits apart from each other and 2 where not positive, both labels, and a networks annotation that splits back into the networks |
| Sfc.LastFunctionCounts | internal/controller/servicefunctionchain_controller.go:89-100 | of functions with one name the last gives the pod |
| Sfc.Reconciler.ReconcilePod | internal/controller/servicefunctionchain_controller.go:236-279 | created, merged, or deleted for a requeue, which pods are left alone, and when nothing is written |
| GoMaps.MergeInto | internal/controller/servicefunctionchain_controller.go:259-273 | the merge loop in any order: every wanted value can be read, every other key is as before, and a change is reported iff the map changed |
| Sfc.Reconciler.DeleteStale | internal/controller/servicefunctionchain_controller.go:102-120 | exactly the labelled pods that are not desired go; wherever it stops, the cluster is on its way to the same outcome |
| Sfc.Reconciler.ReconcilePods | internal/controller/servicefunctionchain_controller.go:122-131 | done means every pod has its outcome; a requeue means exactly one wrong-hash pod fewer |
| Sfc.Reconciler.Reconcile | internal/controller/servicefunctionchain_controller.go:76-134 | for any order and any failure the outcome aimed at is unchanged, wrong-hash pods strictly decrease on a requeue, and a settled cluster is not written to |
| Sfc.Reconciler.Converge | internal/controller/servicefunctionchain_controller.go:122-133 | at most one round more than there are wrong-hash pods reaches the outcome, where nothing is left to do |
| Sfc.OnTheWayKeepsOutcome | internal/controller/servicefunctionchain_controller.go:76-134 | stopping anywhere, by error or requeue, does not change where reconciling ends |
| Sfc.RequeueProgress | internal/controller/servicefunctionchain_controller.go:122-131 | a requeue removes one pod from the wrong-hash set and adds none |
| Sfc.OutcomeIsStable | internal/controller/servicefunctionchain_controller.go:236-279 | the end state is its own outcome |
| Sfc.EndStateIsUnique | internal/controller/servicefunctionchain_controller.go:122-131 | no iteration order shows in the end state |
| Sfc.EndState | internal/controller/servicefunctionchain_controller.go:102-131 | the pods labelled for the chain are exactly the desired ones with the desired labels, annotations and hash; one whose hash agreed keeps its spec and all other labels and annotations, one whose hash did not is replaced; other pods are untouched |
| Sfc.EndStateSpecs | internal/controller/servicefunctionchain_controller.go:250-253 | if the pods under the chain's names carry the hashes of their own specs, their specs become the desired ones and they stay honest |
| Sfc.EndOfFunction | internal/controller/servicefunctionchain_controller.go:136-221 | when a chain is done, the pod of each function that is the last of its name has the labels and networks of that function, and its spec if the pod is new, changed or carried the hash of its own spec |
| Sfc.ChainsCommute | internal/controller/servicefunctionchain_controller.go:76-134 | two chains that share no pods can be reconciled in either order |
| Sfc.SharedPodName | internal/controller/servicefunctionchain_controller.go:138 | when functions of two chains get one pod name |
| Sfc.SharedPodNeverSettles | internal/controller/servicefunctionchain_controller.go:246-253 | no state is settled for two chains whose names meet, whatever the hashes |
| Sfc.ShareAPodIff | internal/controller/servicefunctionchain_controller.go:87-100 | two chains want a pod in common iff names of theirs meet |
| Sfc.BothSettleIff | internal/controller/servicefunctionchain_controller.go:102-131 | some state is settled for two chains iff they share no namespace or no names of theirs meet |
| Sfc.DashedNamesNeverSettle | internal/controller/servicefunctionchain_controller.go:138 | a concrete pair of chains that is never settled |
| Sriov.ContainerOfRef | dpu-cni/pkgs/sriovconfig/sriovconfig.go:141-158 | a cache reference tells its container |
| Sriov.RefsApart | dpu-cni/pkgs/sriovconfig/sriovconfig.go:141-158 | two references coincide iff container and interface are the same |
| Sriov.Manager.IsAllocated | dpu-cni/pkgs/sriovutils/pci_allocator.go:61-97 | in use iff locked by a live namespace; a stale lock is removed by the question |
| Sriov.Manager.DeleteAllocatedPCI | dpu-cni/pkgs/sriovutils/pci_allocator.go:50-56 | the lock goes, and a missing one is the error |
| Sriov.Manager.LoadConf | dpu-cni/pkgs/sriovconfig/sriovconfig.go:20-122 | the gate passes only for an address that no live namespace holds |
| Sriov.Manager.CmdAdd | dpu-cni/pkgs/sriov/sriov.go:362-505 | succeeds iff the VF is not held by a live namespace, the own namespace is live and all commands work; a success caches the conf for this interface of this container and locks the VF; a failure grants nothing; every other interface keeps its conf |
| Sriov.Manager.CmdDel | dpu-cni/pkgs/sriov/sriov.go:510-593 | a cached conf stays iff the IPAM delete failed; only a delete with the live holder frees the VF of this interface; every other end with a live namespace strands it; every other interface keeps its conf |
| Sriov.FreeableIffNamed | dpu-cni/pkgs/sriov/sriov.go:513-593 | some delete can still free a VF iff a live container's cached conf names it |
| Sriov.Handle | dpu-cni/pkgs/sriov/sriov.go:362-593 | a surviving holder's lock is lost exactly to a delete that names it and whose commands all work; exactly an add over a live cached conf and a delete past IPAM that does not release newly strand a VF |
| Sriov.ReleaseKeepsConsistent | dpu-cni/pkgs/sriov/sriov.go:586-592 | freeing a holder's VF breaks no other grant |
| Sriov.ConsistentIsExclusive | dpu-cni/pkgs/sriovconfig/sriovconfig.go:42-55 | consistent caches, locks and grants give no VF to two live namespaces |
| Sriov.Run | dpu-cni/pkgs/cniserver/cniserver.go:222-226 | over every serialised run of adds, deletes, late deletes, failures and namespace deaths no VF is given to two live namespaces; a surviving holder loses a VF only to a delete that came with its namespace, of the interface whose conf named it; a conf only comes from an add of its own interface and stays if no event concerns it; no delete frees a stranded VF; without failures the run refines a machine in which death frees VFs at once |
| VfCount.AnnotateKeys | internal/controller/dataprocessingunitconfig_controller.go:89-137 | what becomes of each annotation key, with the current keys as the config says exactly where it selects and no old mark, and that the changed flag is exact |
| VfCount.ReconciledIsMarked | internal/controller/dataprocessingunitconfig_controller.go:77-137 | the four keys of a config, written out: mark "true" iff selected, VF count iff selected and set, the old mark gone, the old count kept only where the else-if passes it over; every other key is as before |
| VfCount.Cluster.Reconcile | internal/controller/dataprocessingunitconfig_controller.go:53-159 | every DPU's annotations after one reconcile, key by key (`MarksDpu`), up to the first failed update and unchanged from there on; it succeeds iff as many updates work as there are DPUs to change; the names matched are those of the selected DPUs in list order |
| VfCount.DesiredVfCount | internal/daemon/daemon.go:559-595 | for every order: a count iff all keys agree on one above zero, none iff there is no key, an error otherwise |
| VfCount.InvalidIffSpoiled | internal/daemon/daemon.go:559-595 | no count iff there is no key; an error iff some value is no number above zero or two differ as 32-bit numbers |
| Decimal.AtoiOfPrinted | internal/controller/dataprocessingunitconfig_controller.go:104 | what is printed is parsed back iff it is a 64-bit number |
| Decimal.PrintOfDigits | internal/controller/dataprocessingunitconfig_controller.go:104 | digits without a leading zero are what is printed for their value |
| VfCount.DottedIsInjective | internal/controller/dataprocessingunitconfig_controller.go:77-80 | namespace and name can be read off the key, as namespaces hold no dot |
| VfCount.KeysStayApart | internal/controller/dataprocessingunitconfig_controller.go:77-80 | which of the four keys of two configs can coincide: legacy keys iff the names are equal, a legacy key with a current key iff they clash, current keys never |
| VfCount.ProgressStep | internal/controller/dataprocessingunitconfig_controller.go:84-145 | a reconcile of one config keeps what the others reached |
| VfCount.ReadingIsCorrect | internal/daemon/daemon.go:559-595 | on settled annotations a reading is possible iff it is the correct one |
| VfCount.CorrectReadingIsUnique | internal/daemon/daemon.go:579-594 | there is one correct reading |
| VfCount.ReconcileAll | internal/controller/dataprocessingunitconfig_controller.go:53-159 | for any schedule and any failures: once every config was reconciled twice with success the daemon reads v iff the selecting configs that set a count set v > 0, none iff there are none, an error otherwise, on every DPU; the mark of each config reconciled with success is on a DPU iff it selects it, where no name is the dotted name of a selecting config; nothing but annotations changes |
| VfCount.LegacyKeyGoes | internal/controller/dataprocessingunitconfig_controller.go:103-119 | two reconciles remove a config's legacy key, whoever it belongs to |
| VfCount.SettlesIffClashFree | internal/controller/dataprocessingunitconfig_controller.go:77-137 | annotations settle on every schedule from every start iff no config's name is the dotted name of a config that wants a count |
| VfCount.MarksSettleIffApart | internal/controller/dataprocessingunitconfig_controller.go:77-137 | the marks of all configs reconciled so far are right on every schedule from every start iff no config's name is the dotted name of a config that selects the DPU |
| VfCount.ClashLosesCount | internal/controller/dataprocessingunitconfig_controller.go:77-137 | a concrete pair of configs that loses its count |
| VfApply.Daemon.ApplyDesiredVfCounts | internal/daemon/daemon.go:521-557 | a pass sets a count at most once per DPU and only as its annotations say; without failures all are set, and a second pass sets none |
| VfApply.Pipeline | internal/daemon/daemon.go:521-595 | from configs to VFs, with failing updates on the way: every managed host-side DPU ends with the count on which the configs selecting it at the start agree |
| DpuCrSync.UpdateNeeded | internal/daemon/daemon.go:498-519 | no update iff neither has a Ready condition or the first ones of both are the same but for time |
| DpuCrSync.Daemon.SyncSingle | internal/daemon/daemon.go:408-476 | the resource after a successful sync has the desired spec, labels and readiness, and "updated" is exactly "was not in sync"; labels that are not desired stay, whatever fails |
| DpuCrSync.Daemon.SyncDpuCRs | internal/daemon/daemon.go:357-404 | every name after an error-free sync, all as wanted, changed iff the cluster changed iff it was not synced before; other nodes' resources and labels that are not desired never change, whatever fails; under failures the sync is the steps of some order of the two maps |
| DpuCrSync.SyncOfSynced | internal/daemon/daemon.go:357-404 | syncing what is synced changes nothing |
| DpuCrSync.SyncTwice | internal/daemon/daemon.go:408-476 | two syncs reach the managed set, one does if created objects keep their status |
| DpuCrSync.Daemon.SyncThrice | internal/daemon/daemon.go:357-476 | the third sync reports no change |
| DpuCrSync.Daemon.SyncAndMarkReady | internal/daemon/daemon.go:288-308 | without errors readiness is first set exactly when the cluster was in sync; a synced cluster is not touched whatever fails; if all but the list fails the daemon is ready with nothing changed |
| DpuCrSync.SyncedIsKept | internal/daemon/daemon.go:357-476 | for every order and every pattern of failures synced resources stay as they are and no change is counted |
| DpuCrSync.FailuresCountAsNoChange | internal/daemon/daemon.go:377-401 | for every cluster, a sync whose gets and deletes all fail changes nothing and counts no change |
| DpuCrSync.ReadyIsTruthfulIffSynced | internal/daemon/daemon.go:288-308 | readiness implies synced resources under every order and pattern of failures iff they were synced before |
| DpuCrSync.ReadyWithoutCr | internal/daemon/daemon.go:379-386 | a concrete daemon that is ready although no resource exists |
| DpuCrSync.Daemon.Shutdown | internal/daemon/daemon.go:321-328 | an error-free shutdown removes exactly this node's resources |
| SideManagers.Daemon.UpdateManagedDpus | internal/daemon/daemon.go:597-642 | the keys become the detected names, kept entries keep their record, leaving ones are cancelled |
| SideManagers.Daemon.Tick | internal/daemon/daemon.go:209-252 | detected names, kept records and managers, a manager for every entry; the log gains exactly the cancels of the managers whose DPU is gone and one start for each that is new |
| SideManagers.Daemon.Serve | internal/daemon/daemon.go:209-252 | over any detections no manager is cancelled twice, and between two starts for one identifier the first is cancelled |
| SideManagers.CancelledOnce | internal/daemon/daemon.go:623-627 | two cancels in an orderly log are of different managers |
| Sessions.ClosedBetweenOpens | internal/daemon/daemon.go:605-641 | between two opens of a key the first is closed |
| Sessions.CloseMatchesOpen | internal/daemon/dpusidemanager.go:170-173 | a close names the very value of the last open of its key |
| NfPairing.DpuSideManager.CniCmdNfAdd | internal/daemon/dpusidemanager.go:145-160 | the MAC comes on top of those of its namespace; the second one creates the network function of the first two, no other does |
| NfPairing.DpuSideManager.CniCmdNfDel | internal/daemon/dpusidemanager.go:162-180 | the last MAC of the namespace goes; leaving the second one deletes the network function, under the pair that is stored |
| NfPairing.DpuSideManager.Run | internal/daemon/dpusidemanager.go:145-180 | per namespace the MACs are as many as before plus adds minus deletes, and a function is active iff that is two or more, of the two MACs whose adds are at depth 0 and 1 (`Origin`); creates and deletes alternate and each delete names the pair of its create; store and calls are those of the requests whose link move worked |
| NfPairing.StoreIsCounted | internal/daemon/dpusidemanager.go:145-180 | the stored MACs are determined by the depths that the requests count: how many there are, and which add each one comes from |
| NfPairing.OriginIsUnique | internal/daemon/dpusidemanager.go:152-175 | at each depth there is one such MAC |
| NfServed.LegalIffOneAtATime | internal/daemon/vendor-specific-plugins/marvell/main.go:516-597 | the calls of any orderly log are a legal run of the plugin iff all pairs are known and at no moment two namespaces have a network function |
| NfServed.PairingIsLegalIff | internal/daemon/dpusidemanager.go:145-180 | what the pairing asks for is such a run iff the pairs are known and by the count of adds and deletes at no moment two namespaces have two interfaces |
| NfServed.ServePairing | internal/daemon/vendor-specific-plugins/marvell/main.go:516-644 | then the bridge ends in sync, with the pair of the lowest two interfaces of the one namespace that has two, or none |
| LinkMove.Kernel.SetDevTempName | dpu-cni/pkgs/networkfn/networkfn.go:17-35 | the device has the temporary name or nothing changed, and the handle found is the device's own |
| LinkMove.TempNameTellsIndex | dpu-cni/pkgs/networkfn/networkfn.go:18-19 | the index can be read off the temporary name |
| LinkMove.Mover.MoveIn | dpu-cni/pkgs/networkfn/networkfn.go:37-150 | a complete move, or for each step that fails what is restored; without failures the step it stops at is that of the first name that cannot be given, and the device is restored unless the temporary name was taken and it was up |
| LinkMove.Mover.SetUpInside | dpu-cni/pkgs/networkfn/networkfn.go:87-145 | the inner undo brings the device back under the temporary name |
| LinkMove.Mover.MoveOut | dpu-cni/pkgs/networkfn/networkfn.go:152-232 | back under the name in the alias, or for each step that fails what is restored; without failures the step it stops at follows from the names, and the device is restored unless the namespace move failed and it was up |
| LinkMove.Mover.RoundTrip | dpu-cni/pkgs/networkfn/networkfn.go:37-232 | in and out again ends in the host namespace under the original name, for all names, and succeeds when names are free and nothing fails |
| CapabilityWalk.FollowChain | internal/platform/platform.go:132-160 | the loop ends for every input, at the end of the chain or on an offset it visits again |
| CapabilityWalk.ReadDeviceSerial | internal/platform/platform.go:123-163 | the eight bytes in order after the first serial-number header of the chain, the kind of error otherwise, and a loop iff the chain revisits an offset |
| CapabilityWalk.VisitInBytes | internal/platform/platform.go:139-159 | what the walk does at an offset, read off the four bytes: the capability is the low half of the header, the pointer its top twelve bits |
| CapabilityWalk.AnswerIsUnique | internal/platform/platform.go:123-163 | bytes determine the answer |
| CapabilityWalk.RevisitNeverEnds | internal/platform/platform.go:134-138 | a chain that revisits an offset never reaches an end |
| CapabilityWalk.ScaledPointerMisses | internal/platform/platform.go:146-159 | a config space on which scaling the pointer misses the serial number |
| CapabilityWalk.ScalingHarmlessIff | internal/platform/platform.go:146-159 | for spaces of any size: the scaled walk answers as the byte walk on all spaces with a given first header iff the walk does not follow that header's pointer or it leads out of the space |
| Registry.IndexIsDetermined | pkg/plugin/registry.go:88-92 | the device index equals the scan of all plugins; there is one such index |
| Registry.NoDeviceClaimedTwice | pkg/plugin/registry.go:77-83 | no device belongs to two plugins |
| Registry.Registry.Register | pkg/plugin/registry.go:59-95 | accepted iff the name is free and none of its devices is driven by a registered plugin in any letter case; rejected changes nothing; the index agrees again |
| Registry.Registry.Unregister | pkg/plugin/registry.go:99-119 | accepted iff known; the index agrees again |
| Registry.Registry.GetByDeviceID | pkg/plugin/registry.go:132-141 | found iff some plugin claims the device in any letter case, and that one |
| Registry.Registry.GetByVendorDevice | pkg/plugin/registry.go:144-146 | a registered plugin or none, and a plugin iff one of its devices is that pair in any letter case |
| Registry.Registry.RegisterThenUnregister | pkg/plugin/registry.go:59-119 | restores both maps |
| Registry.Registry.List | pkg/plugin/registry.go:149-161 | all plugins, strictly sorted by name, for every iteration order |
| Registry.SortedListIsUnique | pkg/plugin/registry.go:149-161 | there is one such list |
| Registry.LessAtFirstDifference | pkg/plugin/registry.go:157-159 | the order of names is that of bytes at the first difference, shorter names first |
| Registry.Registry.Clear | pkg/plugin/registry.go:267-272 | nothing left, and the index agrees |
| NetSec.Vsp.CreateBridgePort | internal/daemon/vendor-specific-plugins/intel-netsec/main.go:452-497 | succeeds iff the VF is known, has no port and all commands work; the chain then gains the table's own record and the MAC, otherwise nothing changes |
| NetSec.Vsp.DeleteBridgePort | internal/daemon/vendor-specific-plugins/intel-netsec/main.go:499-539 | succeeds iff the VF is known, has a port and all commands work; the chain then loses that key and the record its entry held is free again, otherwise nothing changes |
| NetSec.Vsp.SetNumVfs | internal/daemon/vendor-specific-plugins/intel-netsec/main.go:826-858 | which records are new and unallocated, up to the first failure |
| NetSec.Vsp.Renew | internal/daemon/vendor-specific-plugins/intel-netsec/main.go:766-776 | one fresh, unallocated record; what chain and table share otherwise is kept |
| NetSec.Vsp.RenewalAligns | internal/daemon/vendor-specific-plugins/intel-netsec/main.go:703-783 | chain and table still share records iff no renewed VF had a port |
| NetSec.Vsp.VlansDiffer | internal/daemon/vendor-specific-plugins/intel-netsec/main.go:723 | two VFs of a function never share a VLAN, and that of VF n is n + 2 |
| NetSec.Vsp.Run | internal/daemon/vendor-specific-plugins/intel-netsec/main.go:452-858 | over every run records keep their keys and flags, a port no request deletes keeps record and MAC, and if VFs are only set without ports a VF is allocated iff it has a port; without failures the run refines a machine without records |
| BridgePortName.NameRoundTrip | internal/daemon/hostsidemanager.go:65-88 | the printed name is read back by both expressions iff its numbers are 64-bit numbers |
| BridgePortName.MatchHereIff | internal/daemon/vendor-specific-plugins/intel-netsec/main.go:400-440 | what the expression matches at a position: "host", digits, a dash, digits, and no digit after them |
| BridgePortName.MatchFirstIsLeftmost | internal/daemon/vendor-specific-plugins/marvell/mrvl-utils/mrvlutils.go:69-93 | the unanchored expression finds the leftmost match, and none iff there is none |
| BridgePortName.NetSecMapsVf | internal/daemon/vendor-specific-plugins/intel-netsec/main.go:400-440 | VF to VF for function 0 and 64-bit numbers, an error for others |
| BridgePortName.MarvellMapsVf | internal/daemon/vendor-specific-plugins/marvell/mrvl-utils/mrvlutils.go:69-93 | for every printed name: the position after the VF's number iff it is listed, and the wrapped one for the last 64-bit number |
| BridgePortName.MarvellLeavesListIff | internal/daemon/vendor-specific-plugins/marvell/mrvl-utils/mrvlutils.go:85-92 | an accepted position is outside the list iff the VF is the last 64-bit number |
| BridgePortName.MarvellIndexIsInjective | internal/daemon/vendor-specific-plugins/marvell/main.go:332-349 | two VFs never share a position, for all names |
| Strings.PartsAreSeparated | dpu-cni/pkgs/cniserver/cniserver.go:85-90 | a segment splits in two iff it has one separator |
| CniArgs.GatherCNIArgs | dpu-cni/pkgs/cniserver/cniserver.go:79-99 | succeeds iff every segment has exactly one "="; the last pair of a key decides |
| CniArgs.LastWinsIsUnique | dpu-cni/pkgs/cniserver/cniserver.go:84-97 | that determines the map |
| Strings.SplitOfJoined | dpu-cni/pkgs/cniserver/cniserver.go:85 | splitting inverts joining when no part holds the separator |
| Strings.JoinOfSplit | dpu-cni/pkgs/cniserver/cniserver.go:85-90 | joining inverts splitting, and no part holds the separator |
| Strings.SplitOfSpaced | internal/controller/servicefunctionchain_controller.go:144 | networks joined by a comma and a space are split at the commas again |
| Strings.LowerIsCaseless | pkg/plugin/registry.go:132-141 | lower-cased texts are equal iff the texts are up to the case of ASCII letters |
| CniArgs.TrimSpaceTrims | dpu-cni/pkgs/cniserver/cniserver.go:90 | trimming leaves the part between the white space at both ends |
| CniArgs.PrintedForm | dpu-cni/pkgs/cniserver/cniserver.go:110 | the text exported for a pod |
| CniArgs.RoundTrip | dpu-cni/pkgs/cniserver/cniserver.go:79-110 | what is exported for a pod is read back: its three values without white space around them and the flag, nothing else |

## Left out

- The device plugin (internal/daemon/device-plugin/deviceplugin.go) and the ordered cleanup of rendered resources (pkgs/render/render.go): loops over one list, they would only add easy members.
- gRPC, HTTP and CNI sockets, goroutines, timeouts, detection, flags, logging and metrics.
- Vendor plugins other than Marvell and NetSec, generated code and API types.
- API server: resource versions, conflicts, owner references, validation of annotation keys; label selectors are predicates, and the SHA-256 of a pod spec is a function that is injective where a contract says `GoodHash`.
- Pod spec fields that are the same for all pods, and the read of the operator config, which is a parameter.
- OVS, netlink and sysfs beyond their effect on ports, flows, links and locks: OVS does not check names, and a failed command has no effect.
- Sfc.Reconciler.Converge: assumes that deletes take effect at once and that nobody else writes in between.
- MarvellRuns.Serve: assumes what the callers keep to, as `Legal` says: distinct VF names and distinct non-empty MACs, no port created twice, one network function at a time, deleted with the pair it was created with; a second Init and DPDK ports are excluded.
- MarvellRuns.Serve: stops at the first request that is not done, since the code does not repair a half-done request.
- Sriov.Manager.CmdAdd: writes of cache and lock files succeed, DPDK mode is excluded, and the undo of VF settings on a failure has no part in allocation.
- Sriov.Manager.CmdDel: container ids hold no dash, a delete comes with its container's namespace or none, a namespace's path is not empty, cache cleanup succeeds, and restoring original VF settings is not modelled because the code that would record them is commented out.
- Sriov.Manager.IsAllocated: a namespace can be opened iff it is alive; the code also drops the lock on any other error of opening it.
- VfCount.Cluster.Reconcile: reading the config and listing the DPUs succeed, and the config's status is not written beyond the matched names.
- VfCount.ReconcileAll: assumes no clash (`ClashFree`), which is exactly the condition of `SettlesIffClashFree`, counts of 32 bits as in the API type, and no foreign keys under the prefix.
- LinkMove.Kernel.SetName: a name with a percent sign, which the kernel expands, is taken as it is.
- LinkMove.Mover.MoveIn: the last lookup inside the container and the lookups of the undo succeed; when the last lookup fails, the code undoes through a nil link.
- NfPairing.DpuSideManager.CniCmdNfDel: a delete from an empty list is excluded, where the slice expression of the code panics.
- NetSec.Vsp.CreateBridgePort: a bridge left with a port whose chain entry then fails is not modelled.
- CapabilityWalk.ScalingHarmlessIff: the first header's pointer is a multiple of four, as section 7.6.3 of the PCI Express Base Specification 5.0 requires.
- CapabilityWalk.ReadDeviceSerial: returns the bytes; their hexadecimal form is not modelled.
- Registry.Registry.List: Go's sort is an ordered insertion here; a plugin's description is constant.
- CniArgs.GatherCNIArgs: trims the white space of Latin-1; letter case elsewhere is that of ASCII.
- SideManagers.Daemon.Serve: the conditions, labels and DPU resources that a tick also writes are in the other modules or left out; waiting for a manager to end is not modelled.
