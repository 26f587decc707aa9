/** The Marvell vendor plugin over an OVS bridge: bridge ports and network functions come and go in
    any order, and the bridge always holds exactly the ports and flows of what is stored. */
module MarvellVsp {
  import opened Common
  import opened OpenFlow
  import opened MarvellFlows

  const NF_NAME: string := "mrvl-nf1"

  /** The OVS bridge, as the ovs-vsctl and ovs-ofctl commands of the data plane change it. */
  class Bridge {
    var ports: set<string>
    var flows: Table
    const faults: Faults

    /** A new bridge, initialised: one NORMAL flow and the RPM port. */
    constructor Init(learning: bool, rpm: string, faults: Faults)
      ensures this.faults == faults
      ensures ports == {rpm}
      ensures flows == map[FlowKey(if learning then 65535 else 0, Match(None, None)) := Normal]
      ensures forall vfs :: Realises(flows, learning, vfs, None, rpm)
    {
      this.faults := faults;
      flows := map[NormalKey(false) := Normal];
      ports := {};
      new;
      if learning {
        flows := map[];
        flows := AddFlow(flows, NormalKey(true), Normal);
      }
      ports := ports + {rpm};
    }

    method AddPort(port: string) returns (ok: bool)
      modifies this`ports, faults
      ensures ports == if ok then old(ports) + {port} else old(ports)
      ensures ok == Works(old(faults.script)) && faults.script == Rest(old(faults.script))
    {
      ok := faults.Next();
      if ok { ports := ports + {port}; }
    }

    method DeletePort(port: string) returns (ok: bool)
      modifies this`ports, faults
      ensures ports == if ok then old(ports) - {port} else old(ports)
      ensures ok == Works(old(faults.script)) && faults.script == Rest(old(faults.script))
    {
      ok := faults.Next();
      if ok { ports := ports - {port}; }
    }

    method AddFlowRule(src: string, dst: string, dstMac: string) returns (ok: bool)
      modifies this`flows, faults
      ensures !ok ==> flows == old(flows)
      ensures ok && dstMac == "" ==> flows == AddFlow(old(flows), PortKey(10, src), Output(dst))
      ensures ok && dstMac != "" && src == dst ==>
        flows == AddFlow(old(flows), PortMacKey(100, src, dstMac), ToInPort)
      ensures ok && dstMac != "" && src != dst ==>
        flows == AddFlow(old(flows), PortMacKey(32768, src, dstMac), Output(dst))
      ensures ok == Works(old(faults.script)) && faults.script == Rest(old(faults.script))
    {
      ok := faults.Next();
      if !ok { return; }
      if dstMac != "" {
        if src == dst {
          flows := AddFlow(flows, PortMacKey(HAIRPIN_PRIORITY, src, dstMac), ToInPort);
        } else {
          flows := AddFlow(flows, PortMacKey(DEFAULT_PRIORITY, src, dstMac), Output(dst));
        }
      } else {
        flows := AddFlow(flows, PortKey(PORT_PRIORITY, src), Output(dst));
      }
    }

    /** The destination interface only shows in the log: deletes go by source and MAC. */
    method DeleteFlowRule(src: string, dst: string, dstMac: string) returns (ok: bool)
      modifies this`flows, faults
      ensures !ok ==> flows == old(flows)
      ensures ok && dstMac == "" ==> flows == DelFlows(old(flows), Match(Some(src), None))
      ensures ok && dstMac != "" ==> flows == DelFlows(old(flows), Match(Some(src), Some(dstMac)))
      ensures ok == Works(old(faults.script)) && faults.script == Rest(old(faults.script))
    {
      ok := faults.Next();
      if !ok { return; }
      if dstMac != "" {
        flows := DelFlows(flows, Match(Some(src), Some(dstMac)));
      } else {
        flows := DelFlows(flows, Match(Some(src), None));
      }
    }
  }

  datatype NfPortMap = NfPortMap(vfPort: seq<VfInfo>, inpPort: string, outPort: string)

  type NetworkStore = map<string, NfPortMap>

  /** `Silent` is a reply of (nil, nil): no error, although the request was given up. */
  datatype Reply = Done | Silent | Failed

  /** What the platform fixes: the uplink port, the VF netdev behind each bridge-port name such as
      "host0-3" (missing names are errors), and the data-plane interface of each veth device by the
      MAC of its network-function side. */
  datatype Wiring = Wiring(learning: bool, rpm: string, vfOf: map<string, string>, deviceStore: map<string, string>) {
    /** No interface plays two parts. */
    ghost predicate Valid() {
      && rpm !in vfOf.Values && rpm !in deviceStore.Values
      && vfOf.Values !! deviceStore.Values
      && forall d, e :: d in deviceStore && e in deviceStore && deviceStore[d] == deviceStore[e] ==> d == e
    }

    ghost predicate IsPair(nf: NfPair) {
      nf.inp in deviceStore.Values && nf.out in deviceStore.Values && nf.inp != nf.out
    }
  }

  ghost function VfSet(vfs: seq<VfInfo>): set<VfInfo> {
    set v | v in vfs
  }

  ghost function VfNames(vfs: set<VfInfo>): set<string> {
    set v | v in vfs :: v.vfName
  }

  ghost function WithoutName(vfs: set<VfInfo>, name: string): set<VfInfo> {
    set v | v in vfs && v.vfName != name
  }

  ghost predicate NoRepeats(vfs: seq<VfInfo>) {
    forall i, j :: 0 <= i < j < |vfs| ==> vfs[i].vfName != vfs[j].vfName
  }

  ghost function StoredVfs(store: NetworkStore): seq<VfInfo> {
    if NF_NAME in store then store[NF_NAME].vfPort else []
  }

  ghost function Vfs(store: NetworkStore): set<VfInfo> {
    VfSet(StoredVfs(store))
  }

  /** The input and output ports stay in the store when a network function goes; `isNF` tells. */
  ghost function Nf(store: NetworkStore, isNF: bool): Option<NfPair> {
    if isNF && NF_NAME in store then Some(NfPair(store[NF_NAME].inpPort, store[NF_NAME].outPort)) else None
  }

  /** Stored VFs have distinct names and MACs and are VFs of the platform; an active network function
      uses two different devices. */
  ghost predicate Sound(w: Wiring, store: NetworkStore, isNF: bool) {
    && w.Valid()
    && NoRepeats(StoredVfs(store))
    && DistinctVfs(Vfs(store))
    && VfNames(Vfs(store)) <= w.vfOf.Values
    && (isNF ==> NF_NAME in store && w.IsPair(Nf(store, isNF).value))
  }

  ghost function WantedPorts(w: Wiring, store: NetworkStore, isNF: bool): set<string> {
    var nf := Nf(store, isNF);
    {w.rpm} + VfNames(Vfs(store)) + if nf.Some? then {nf.value.inp, nf.value.out} else {}
  }

  ghost predicate FlowsMatch(w: Wiring, store: NetworkStore, isNF: bool, flows: Table) {
    Realises(flows, w.learning, Vfs(store), Nf(store, isNF), w.rpm)
  }

  lemma PairPortsAreDistinct(w: Wiring, vfs: set<VfInfo>, nf: NfPair)
    requires w.Valid() && w.IsPair(nf) && VfNames(vfs) <= w.vfOf.Values
    ensures DistinctPorts(vfs, nf, w.rpm)
  {
    forall v | v in vfs ensures v.vfName !in {nf.inp, nf.out, w.rpm} {
      assert v.vfName in VfNames(vfs);
    }
  }

  function StoreVf(store: NetworkStore, v: VfInfo): NetworkStore {
    if NF_NAME in store then
      store[NF_NAME := store[NF_NAME].(vfPort := store[NF_NAME].vfPort + [v])]
    else
      store[NF_NAME := NfPortMap([v], "", "")]
  }

  lemma StoreVfIsSound(w: Wiring, store: NetworkStore, isNF: bool, v: VfInfo)
    requires Sound(w, store, isNF)
    requires v.vfName in w.vfOf.Values && v.mac != ""
    requires forall u :: u in Vfs(store) ==> u.vfName != v.vfName && u.mac != v.mac
    ensures Sound(w, StoreVf(store, v), isNF)
    ensures Vfs(StoreVf(store, v)) == Vfs(store) + {v} && Nf(StoreVf(store, v), isNF) == Nf(store, isNF)
    ensures WantedPorts(w, StoreVf(store, v), isNF) == WantedPorts(w, store, isNF) + {v.vfName}
  {
    var vfs, vfs' := StoredVfs(store), StoredVfs(StoreVf(store, v));
    assert vfs' == vfs + [v];
    OneMoreVf(vfs, v);
    MorePorts(w, store, StoreVf(store, v), isNF, v.vfName);
  }

  lemma MorePorts(w: Wiring, store: NetworkStore, store': NetworkStore, isNF: bool, name: string)
    requires VfNames(Vfs(store')) == VfNames(Vfs(store)) + {name} && Nf(store', isNF) == Nf(store, isNF)
    ensures WantedPorts(w, store', isNF) == WantedPorts(w, store, isNF) + {name}
  {
  }

  lemma OneMoreVf(vfs: seq<VfInfo>, v: VfInfo)
    requires NoRepeats(vfs) && DistinctVfs(VfSet(vfs)) && v.mac != ""
    requires forall u :: u in VfSet(vfs) ==> u.vfName != v.vfName && u.mac != v.mac
    ensures NoRepeats(vfs + [v]) && VfSet(vfs + [v]) == VfSet(vfs) + {v} && DistinctVfs(VfSet(vfs + [v]))
    ensures VfNames(VfSet(vfs + [v])) == VfNames(VfSet(vfs)) + {v.vfName}
  {
    var vfs' := vfs + [v];
    assert VfSet(vfs') == VfSet(vfs) + {v};
    assert VfNames(VfSet(vfs')) == VfNames(VfSet(vfs)) + {v.vfName};
    forall i, j | 0 <= i < j < |vfs'| ensures vfs'[i].vfName != vfs'[j].vfName {
      if j == |vfs| { assert vfs[i] in VfSet(vfs); }
    }
  }

  /** Storing the rest after one name is dropped. */
  lemma DropVfIsSound(w: Wiring, store: NetworkStore, isNF: bool, name: string, rest: seq<VfInfo>)
    requires Sound(w, store, isNF) && NF_NAME in store
    requires NoRepeats(rest) && VfSet(rest) == WithoutName(Vfs(store), name)
    requires name in w.vfOf.Values
    ensures var store' := store[NF_NAME := store[NF_NAME].(vfPort := rest)];
      && Sound(w, store', isNF)
      && Nf(store', isNF) == Nf(store, isNF)
      && WantedPorts(w, store', isNF) == WantedPorts(w, store, isNF) - {name}
  {
    assert VfNames(VfSet(rest)) == VfNames(Vfs(store)) - {name};
  }

  /** Storing the ports of a network function. */
  lemma StoreNfIsSound(w: Wiring, store: NetworkStore, nf: NfPair)
    requires Sound(w, store, false) && w.IsPair(nf)
    ensures var store' := store[NF_NAME := NfPortMap(StoredVfs(store), nf.inp, nf.out)];
      && Sound(w, store', true)
      && Vfs(store') == Vfs(store)
      && Nf(store', true) == Some(nf)
      && WantedPorts(w, store', true) == WantedPorts(w, store, false) + {nf.inp, nf.out}
  {
    var store' := store[NF_NAME := NfPortMap(StoredVfs(store), nf.inp, nf.out)];
    assert StoredVfs(store') == StoredVfs(store);
  }

  class Vsp {
    const bridge: Bridge
    const w: Wiring
    var networkStore: NetworkStore
    var isNF: bool

    /** Ports and flows are exactly those of the store. */
    ghost predicate InSync()
      reads this, bridge
    {
      && Sound(w, networkStore, isNF)
      && bridge.ports == WantedPorts(w, networkStore, isNF)
      && FlowsMatch(w, networkStore, isNF, bridge.flows)
    }

    constructor (bridge: Bridge, w: Wiring)
      requires w.Valid()
      requires bridge.ports == {w.rpm} && Realises(bridge.flows, w.learning, {}, None, w.rpm)
      ensures this.bridge == bridge && this.w == w
      ensures InSync() && networkStore == map[] && !isNF
    {
      this.bridge, this.w := bridge, w;
      networkStore, isNF := map[], false;
    }

    /** The three rules of one VF, as both creation paths add them. */
    method AddVfFlows(v: VfInfo, nf: NfPair, ghost hidden: iset<FlowKey>, ghost vfs: set<VfInfo>) returns (ok: bool)
      requires DistinctVfs(vfs + {v}) && DistinctPorts(vfs + {v}, nf, w.rpm)
      requires hidden <= UplinkKeys(nf, w.rpm)
      requires RealisesExcept(bridge.flows, hidden, w.learning, vfs, Some(nf), w.rpm)
      modifies bridge`flows, bridge.faults
      ensures SubTable(old(bridge.flows), bridge.flows)
      ensures ok ==> RealisesExcept(bridge.flows, hidden, w.learning, vfs + {v}, Some(nf), w.rpm)
      ensures ok <==> AllWork(old(bridge.faults.script), 3)
      ensures ok ==> bridge.faults.script == Drop(old(bridge.faults.script), 3)
      ensures old(bridge.faults.script) == [] ==> bridge.faults.script == []
    {
      OneByOne(bridge.faults.script);
      OneByOne(Rest(bridge.faults.script));
      OneByOne(Rest(Rest(bridge.faults.script)));
      AddVfRules(bridge.flows, hidden, w.learning, vfs, v, nf, w.rpm);
      ok := bridge.AddFlowRule(v.vfName, nf.inp, "");
      if !ok { return; }
      ok := bridge.AddFlowRule(nf.inp, v.vfName, v.mac);
      if !ok { return; }
      ok := bridge.AddFlowRule(nf.out, nf.out, v.mac);
    }

    method CreateBridgePort(portName: string, mac: string) returns (reply: Reply)
      requires InSync()
      requires portName in w.vfOf ==>
        mac != "" && forall v :: v in Vfs(networkStore) ==> v.vfName != w.vfOf[portName] && v.mac != mac
      modifies this`networkStore, bridge, bridge.faults
      ensures Nf(networkStore, isNF) == old(Nf(networkStore, isNF)) && reply != Silent
      ensures reply == Done ==>
        portName in w.vfOf && InSync() && Vfs(networkStore) == old(Vfs(networkStore)) + {VfInfo(w.vfOf[portName], mac)}
      ensures bridge.ports == WantedPorts(w, networkStore, isNF)
      ensures Vfs(networkStore) == old(Vfs(networkStore)) +
        if portName in w.vfOf && Works(old(bridge.faults.script)) then {VfInfo(w.vfOf[portName], mac)} else {}
      ensures reply == Failed ==> SubTable(old(bridge.flows), bridge.flows)
      ensures reply == Failed && networkStore == old(networkStore) ==> InSync()
      ensures reply == Done <==>
        portName in w.vfOf && AllWork(old(bridge.faults.script), if isNF then 4 else 1)
      ensures old(bridge.faults.script) == [] ==> bridge.faults.script == []
    {
      reply := Failed;
      OneByOne(bridge.faults.script);
      FirstAndThen(bridge.faults.script, 1, 3);
      if portName !in w.vfOf { return; }
      var v := VfInfo(w.vfOf[portName], mac);
      ghost var store := networkStore;
      var ok := bridge.AddPort(v.vfName);
      if !ok { return; }
      StoreVfIsSound(w, networkStore, isNF, v);
      if NF_NAME in networkStore {
        var network := networkStore[NF_NAME];
        networkStore := networkStore[NF_NAME := network.(vfPort := network.vfPort + [v])];
      } else {
        networkStore := networkStore[NF_NAME := NfPortMap([v], "", "")];
      }
      if isNF {
        var nf := NfPair(networkStore[NF_NAME].inpPort, networkStore[NF_NAME].outPort);
        PairPortsAreDistinct(w, Vfs(networkStore), nf);
        ok := AddVfFlows(v, nf, iset{}, Vfs(store));
        if !ok { return; }
      }
      reply := Done;
    }

    /** The deletes that precede the removal of a port while a network function is active. The VF's
        MAC is looked up in the store and is "" when the VF is not there; deletes without MAC empty
        the whole output and input port, the network function's own rules included. */
    method DeleteVfFlows(vfName: string) returns (reply: Reply)
      requires InSync() && isNF && vfName in w.vfOf.Values
      modifies bridge`flows, bridge.faults
      ensures var vfs, nf := Vfs(networkStore), Nf(networkStore, isNF);
        reply == Done ==>
          if HasVf(vfs, vfName) then
            Realises(bridge.flows, w.learning, WithoutName(vfs, vfName), nf, w.rpm)
          else
            && RealisesExcept(bridge.flows, KeysOfPorts({vfName, nf.value.out, nf.value.inp}),
               w.learning, vfs, nf, w.rpm)
            && !Realises(bridge.flows, w.learning, vfs, nf, w.rpm)
      ensures SubTable(bridge.flows, old(bridge.flows))
      ensures reply == Silent ==>
        (FlowsMatch(w, networkStore, isNF, bridge.flows) <==>
          !HasVf(Vfs(networkStore), vfName) && !Works(Rest(old(bridge.faults.script))))
      ensures var first := old(bridge.faults.script);
        && (reply == Failed <==> !Works(first)) && (reply == Failed ==> bridge.flows == old(bridge.flows))
        && (reply == Silent <==> Works(first) && !(Works(Rest(first)) && Works(Rest(Rest(first)))))
        && (reply == Done ==> bridge.faults.script == Rest(Rest(Rest(first))))
    {
      ghost var vfs := Vfs(networkStore);
      var nf := NfPair(networkStore[NF_NAME].inpPort, networkStore[NF_NAME].outPort);
      PairPortsAreDistinct(w, vfs, nf);
      var vfMac := MacOf(networkStore[NF_NAME].vfPort, vfName);
      if HasVf(vfs, vfName) {
        var v := VfInfo(vfName, vfMac);
        DelVfRules(bridge.flows, w.learning, vfs, v, nf, w.rpm);
        assert vfs - {v} == WithoutName(vfs, vfName);
      } else {
        DelUnknownVf(bridge.flows, vfName, w.learning, vfs, nf, w.rpm);
      }
      ghost var known, start := HasVf(vfs, vfName), bridge.flows;
      if !known { UnknownPortIsEmpty(start, vfName, w.learning, vfs, nf, w.rpm); }
      var ok := bridge.DeleteFlowRule(vfName, "", "");
      if !ok { return Failed; }
      ghost var k := PortKey(PORT_PRIORITY, if known then vfName else nf.out);
      assert Wanted(k, w.learning, vfs, Some(nf), w.rpm).Some?;
      assert known ==> Find(bridge.flows, k) == None;
      ok := bridge.DeleteFlowRule(nf.out, nf.out, vfMac);
      if !ok { return Silent; }
      assert Find(bridge.flows, k) == None;
      ok := bridge.DeleteFlowRule(nf.inp, vfName, vfMac);
      assert Find(bridge.flows, k) == None;
      return if ok then Done else Silent;
    }

    method DeleteBridgePort(portName: string) returns (reply: Reply)
      requires InSync()
      modifies this`networkStore, bridge, bridge.faults
      ensures Sound(w, networkStore, isNF) && Nf(networkStore, isNF) == old(Nf(networkStore, isNF))
      ensures portName !in w.vfOf ==>
        reply == Failed && bridge.flows == old(bridge.flows) && bridge.ports == old(bridge.ports)
      ensures reply == Done ==>
        && portName in w.vfOf
        && Vfs(networkStore) == WithoutName(old(Vfs(networkStore)), w.vfOf[portName])
        && bridge.ports == WantedPorts(w, networkStore, isNF)
      ensures reply == Done ==>
        (InSync() <==> old(Nf(networkStore, isNF)) == None || HasVf(old(Vfs(networkStore)), w.vfOf[portName]))
      ensures reply == Done && !InSync() ==>
        var nf := Nf(networkStore, isNF);
        RealisesExcept(bridge.flows, KeysOfPorts({w.vfOf[portName], nf.value.out, nf.value.inp}),
          w.learning, Vfs(networkStore), nf, w.rpm)
      ensures reply != Done ==> networkStore == old(networkStore)
      ensures Nf(networkStore, isNF) == None || reply != Done ==> SubTable(bridge.flows, old(bridge.flows))
      ensures var first := old(bridge.faults.script);
        reply == Silent <==>
          portName in w.vfOf && isNF && Works(first) && !(Works(Rest(first)) && Works(Rest(Rest(first))))
      ensures reply == Silent ==>
        && networkStore == old(networkStore) && bridge.ports == old(bridge.ports)
        && (InSync() <==>
              !HasVf(Vfs(networkStore), w.vfOf[portName]) && !Works(Rest(old(bridge.faults.script))))
      ensures reply == Done <==>
        portName in w.vfOf && AllWork(old(bridge.faults.script), if isNF then 4 else 1)
      ensures old(bridge.faults.script) == [] ==> bridge.faults.script == []
    {
      reply := Failed;
      OneByOne(bridge.faults.script);
      OneByOne(Rest(bridge.faults.script));
      OneByOne(Rest(Rest(bridge.faults.script)));
      OneByOne(Rest(Rest(Rest(bridge.faults.script))));
      FirstAndThen(bridge.faults.script, 3, 1);
      if portName !in w.vfOf { return; }
      var vfName := w.vfOf[portName];
      ghost var vfs, known := Vfs(networkStore), HasVf(Vfs(networkStore), vfName);
      if isNF {
        reply := DeleteVfFlows(vfName);
        if reply != Done { return; }
      } else {
        NoNfRules(bridge.flows, w.learning, vfs, WithoutName(vfs, vfName), w.rpm);
      }
      var ok := bridge.DeletePort(vfName);
      if !ok { return Failed; }
      if NF_NAME in networkStore {
        var network := networkStore[NF_NAME];
        var rest := Without(network.vfPort, vfName);
        DropVfIsSound(w, networkStore, isNF, vfName, rest);
        networkStore := networkStore[NF_NAME := network.(vfPort := rest)];
      }
      assert !known ==> Vfs(networkStore) == vfs;
      reply := Done;
    }

    method CreateNetworkFunction(input: string, output: string) returns (reply: Reply)
      requires InSync() && !isNF
      requires input in w.deviceStore && output in w.deviceStore && input != output
      modifies this, bridge, bridge.faults
      ensures reply != Silent && Vfs(networkStore) == old(Vfs(networkStore))
      ensures reply == Done ==>
        InSync() && Nf(networkStore, isNF) == Some(NfPair(w.deviceStore[input], w.deviceStore[output]))
      ensures reply == Failed ==> SubTable(old(bridge.flows), bridge.flows)
      ensures reply == Done <==> AllWork(old(bridge.faults.script), 3 * |StoredVfs(old(networkStore))| + 5)
      ensures old(bridge.faults.script) == [] ==> bridge.faults.script == []
    {
      isNF := true;
      reply := AddNetworkFunction(w.deviceStore[input], w.deviceStore[output]);
    }

    method AddNetworkFunction(inp: string, out: string) returns (reply: Reply)
      requires isNF && Sound(w, networkStore, false) && w.IsPair(NfPair(inp, out))
      requires bridge.ports == WantedPorts(w, networkStore, false)
      requires FlowsMatch(w, networkStore, false, bridge.flows)
      modifies this`networkStore, bridge, bridge.faults
      ensures reply != Silent && Vfs(networkStore) == old(Vfs(networkStore))
      ensures reply == Done ==> InSync() && Nf(networkStore, isNF) == Some(NfPair(inp, out))
      ensures SubTable(old(bridge.flows), bridge.flows)
      ensures reply == Done <==> AllWork(old(bridge.faults.script), 3 * |StoredVfs(old(networkStore))| + 5)
      ensures old(bridge.faults.script) == [] ==> bridge.faults.script == []
    {
      reply := Failed;
      OneByOne(bridge.faults.script);
      FirstAndThen(bridge.faults.script, 2, 3 * |StoredVfs(networkStore)| + 3);
      var ok := bridge.AddPort(inp);
      if !ok { return; }
      ok := bridge.AddPort(out);
      if !ok { return; }
      ok := StoreNetworkFunction(inp, out);
      if ok { reply := Done; }
    }

    /** The store, then the rules of its VFs and the uplink. */
    method StoreNetworkFunction(inp: string, out: string) returns (ok: bool)
      requires isNF && Sound(w, networkStore, false) && w.IsPair(NfPair(inp, out))
      requires FlowsMatch(w, networkStore, false, bridge.flows)
      modifies this`networkStore, bridge`flows, bridge.faults
      ensures Sound(w, networkStore, true) && Vfs(networkStore) == old(Vfs(networkStore))
      ensures Nf(networkStore, true) == Some(NfPair(inp, out))
      ensures WantedPorts(w, networkStore, true) == WantedPorts(w, old(networkStore), false) + {inp, out}
      ensures ok ==> FlowsMatch(w, networkStore, true, bridge.flows)
      ensures SubTable(old(bridge.flows), bridge.flows)
      ensures ok <==> AllWork(old(bridge.faults.script), 3 * |StoredVfs(old(networkStore))| + 3)
      ensures ok ==> bridge.faults.script == Drop(old(bridge.faults.script), 3 * |StoredVfs(old(networkStore))| + 3)
      ensures old(bridge.faults.script) == [] ==> bridge.faults.script == []
    {
      var nf := NfPair(inp, out);
      FirstAndThen(bridge.faults.script, 3 * |StoredVfs(networkStore)|, 3);
      PairPortsAreDistinct(w, Vfs(networkStore), nf);
      StartNf(bridge.flows, w.learning, Vfs(networkStore), nf, w.rpm);
      StoreNfIsSound(w, networkStore, nf);
      if NF_NAME in networkStore {
        var dpuVfs := networkStore[NF_NAME].vfPort;
        networkStore := networkStore[NF_NAME := NfPortMap(dpuVfs, inp, out)];
        ok := AddAllVfFlows(dpuVfs, nf);
        if !ok { return; }
      } else {
        networkStore := networkStore[NF_NAME := NfPortMap([], inp, out)];
      }
      ok := AddUplinkFlows(nf, Vfs(networkStore));
    }

    method AddAllVfFlows(dpuVfs: seq<VfInfo>, nf: NfPair) returns (ok: bool)
      requires DistinctVfs(VfSet(dpuVfs)) && DistinctPorts(VfSet(dpuVfs), nf, w.rpm)
      requires RealisesExcept(bridge.flows, UplinkKeys(nf, w.rpm), w.learning, {}, Some(nf), w.rpm)
      modifies bridge`flows, bridge.faults
      ensures SubTable(old(bridge.flows), bridge.flows)
      ensures ok ==> RealisesExcept(bridge.flows, UplinkKeys(nf, w.rpm), w.learning, VfSet(dpuVfs), Some(nf), w.rpm)
      ensures ok <==> AllWork(old(bridge.faults.script), 3 * |dpuVfs|)
      ensures ok ==> bridge.faults.script == Drop(old(bridge.faults.script), 3 * |dpuVfs|)
      ensures old(bridge.faults.script) == [] ==> bridge.faults.script == []
    {
      ghost var hidden := UplinkKeys(nf, w.rpm);
      ghost var script, done := bridge.faults.script, 0;
      assert VfSet(dpuVfs[..0]) == {};
      for i := 0 to |dpuVfs|
        invariant RealisesExcept(bridge.flows, hidden, w.learning, VfSet(dpuVfs[..i]), Some(nf), w.rpm)
        invariant SubTable(old(bridge.flows), bridge.flows)
        invariant done == 3 * i && AllWork(script, done) && bridge.faults.script == Drop(script, done)
      {
        assert VfSet(dpuVfs[..i + 1]) == VfSet(dpuVfs[..i]) + {dpuVfs[i]};
        SubsetStaysDistinct(VfSet(dpuVfs[..i + 1]), VfSet(dpuVfs), nf, w.rpm);
        NextOnes(script, done, 3, 3 * |dpuVfs|);
        ok := AddVfFlows(dpuVfs[i], nf, hidden, VfSet(dpuVfs[..i]));
        if !ok { return; }
        done := done + 3;
      }
      assert dpuVfs[..|dpuVfs|] == dpuVfs;
      ok := true;
    }

    method AddUplinkFlows(nf: NfPair, ghost vfs: set<VfInfo>) returns (ok: bool)
      requires DistinctPorts(vfs, nf, w.rpm)
      requires RealisesExcept(bridge.flows, UplinkKeys(nf, w.rpm), w.learning, vfs, Some(nf), w.rpm)
      modifies bridge`flows, bridge.faults
      ensures SubTable(old(bridge.flows), bridge.flows)
      ensures ok ==> Realises(bridge.flows, w.learning, vfs, Some(nf), w.rpm)
      ensures ok <==> AllWork(old(bridge.faults.script), 3)
      ensures ok ==> bridge.faults.script == Drop(old(bridge.faults.script), 3)
      ensures old(bridge.faults.script) == [] ==> bridge.faults.script == []
    {
      OneByOne(bridge.faults.script);
      OneByOne(Rest(bridge.faults.script));
      OneByOne(Rest(Rest(bridge.faults.script)));
      ok := bridge.faults.Next();  // looking the RPM interface up
      if !ok { return; }
      AddUplink(bridge.flows, w.learning, vfs, nf, w.rpm);
      UplinkIsNew(bridge.flows, UplinkKeys(nf, w.rpm), w.learning, vfs, nf, w.rpm);
      ok := bridge.AddFlowRule(nf.out, w.rpm, "");
      if !ok { return; }
      ok := bridge.AddFlowRule(w.rpm, nf.out, "");
    }

    method DeleteNetworkFunction(input: string, output: string) returns (reply: Reply)
      requires InSync() && isNF
      requires input in w.deviceStore && output in w.deviceStore
      requires Nf(networkStore, isNF) == Some(NfPair(w.deviceStore[input], w.deviceStore[output]))
      modifies this, bridge, bridge.faults
      ensures reply != Silent && networkStore == old(networkStore) && !isNF
      ensures reply == Done ==> InSync()
      ensures SubTable(bridge.flows, old(bridge.flows))
      ensures reply == Done <==> AllWork(old(bridge.faults.script), |StoredVfs(networkStore)| + 6)
      ensures old(bridge.faults.script) == [] ==> bridge.faults.script == []
    {
      isNF := false;
      reply := DeleteNetworkFunctionPort(w.deviceStore[input], w.deviceStore[output]);
    }

    method DeleteNetworkFunctionPort(inp: string, out: string) returns (reply: Reply)
      requires !isNF && Sound(w, networkStore, true)
      requires Nf(networkStore, true) == Some(NfPair(inp, out))
      requires bridge.ports == WantedPorts(w, networkStore, true)
      requires FlowsMatch(w, networkStore, true, bridge.flows)
      modifies bridge, bridge.faults
      ensures reply != Silent
      ensures reply == Done ==> InSync()
      ensures SubTable(bridge.flows, old(bridge.flows))
      ensures reply == Done <==> AllWork(old(bridge.faults.script), |StoredVfs(networkStore)| + 6)
      ensures old(bridge.faults.script) == [] ==> bridge.faults.script == []
    {
      reply := Failed;
      var dpuVfs := networkStore[NF_NAME].vfPort;
      ghost var vfs, nf := VfSet(dpuVfs), NfPair(inp, out);
      PairPortsAreDistinct(w, vfs, nf);
      FirstAndThen(bridge.faults.script, |dpuVfs| + 4, 2);
      OneByOne(Drop(bridge.faults.script, |dpuVfs| + 4));
      OneByOne(Rest(Drop(bridge.faults.script, |dpuVfs| + 4)));
      ghost var gone;
      var ok;
      ok, gone := DeleteAllFlows(dpuVfs, NfPair(inp, out));
      if !ok { return; }
      EndNf(bridge.flows, gone, w.learning, vfs, nf, w.rpm);
      ok := bridge.DeletePort(inp);
      if !ok { return; }
      ok := bridge.DeletePort(out);
      if !ok { return; }
      reply := Done;
    }

    /** Empties every port of the network function, its VFs' and the uplink. */
    method DeleteAllFlows(dpuVfs: seq<VfInfo>, nf: NfPair) returns (ok: bool, ghost gone: set<string>)
      requires Realises(bridge.flows, w.learning, VfSet(dpuVfs), Some(nf), w.rpm)
      modifies bridge`flows, bridge.faults
      ensures SubTable(bridge.flows, old(bridge.flows))
      ensures RealisesExcept(bridge.flows, KeysOfPorts(gone), w.learning, VfSet(dpuVfs), Some(nf), w.rpm)
      ensures ok ==> gone == VfNames(VfSet(dpuVfs)) + {nf.inp, nf.out, w.rpm}
      ensures ok <==> AllWork(old(bridge.faults.script), |dpuVfs| + 4)
      ensures ok ==> bridge.faults.script == Drop(old(bridge.faults.script), |dpuVfs| + 4)
      ensures old(bridge.faults.script) == [] ==> bridge.faults.script == []
    {
      ghost var vfs := VfSet(dpuVfs);
      gone := {};
      assert KeysOfPorts(gone) == iset{};
      for i := 0 to |dpuVfs|
        invariant RealisesExcept(bridge.flows, KeysOfPorts(gone), w.learning, vfs, Some(nf), w.rpm)
        invariant gone == set j | 0 <= j < i :: dpuVfs[j].vfName
        invariant SubTable(bridge.flows, old(bridge.flows))
        invariant AllWork(old(bridge.faults.script), i)
        invariant bridge.faults.script == Drop(old(bridge.faults.script), i)
      {
        ghost var gone' := EmptyPortGhost(gone, dpuVfs[i].vfName, vfs, nf);
        NextOne(old(bridge.faults.script), i, |dpuVfs| + 4);
        ok := bridge.DeleteFlowRule(dpuVfs[i].vfName, nf.inp, "");
        if !ok { return; }
        gone := gone';
      }
      FirstAndThen(old(bridge.faults.script), |dpuVfs|, 4);
      assert gone == VfNames(vfs);
      ok, gone := DeleteNfFlows(gone, vfs, nf);
    }

    /** Empties the three ports the network function's own rules sit on. */
    method DeleteNfFlows(ghost emptied: set<string>, ghost vfs: set<VfInfo>, nf: NfPair)
      returns (ok: bool, ghost gone: set<string>)
      requires RealisesExcept(bridge.flows, KeysOfPorts(emptied), w.learning, vfs, Some(nf), w.rpm)
      modifies bridge`flows, bridge.faults
      ensures SubTable(bridge.flows, old(bridge.flows))
      ensures RealisesExcept(bridge.flows, KeysOfPorts(gone), w.learning, vfs, Some(nf), w.rpm)
      ensures ok ==> gone == emptied + {nf.inp, nf.out, w.rpm}
      ensures ok <==> AllWork(old(bridge.faults.script), 4)
      ensures ok ==> bridge.faults.script == Drop(old(bridge.faults.script), 4)
      ensures old(bridge.faults.script) == [] ==> bridge.faults.script == []
    {
      OneByOne(bridge.faults.script);
      OneByOne(Rest(bridge.faults.script));
      OneByOne(Rest(Rest(bridge.faults.script)));
      OneByOne(Rest(Rest(Rest(bridge.faults.script))));
      FirstAndThen(bridge.faults.script, 3, 1);
      gone := emptied;
      ghost var gone' := EmptyPortGhost(gone, nf.inp, vfs, nf);
      ok := bridge.DeleteFlowRule(nf.inp, "", "");
      if !ok { return; }
      gone := gone';
      gone' := EmptyPortGhost(gone, nf.out, vfs, nf);
      ok := bridge.DeleteFlowRule(nf.out, "", "");
      if !ok { return; }
      gone := gone';
      ok := bridge.faults.Next();  // looking the RPM interface up
      if !ok { return; }
      gone' := EmptyPortGhost(gone, w.rpm, vfs, nf);
      ok := bridge.DeleteFlowRule(w.rpm, "", "");
      if !ok { return; }
      gone := gone';
    }

    lemma EmptyPortGhost(gone: set<string>, port: string, vfs: set<VfInfo>, nf: NfPair) returns (gone': set<string>)
      requires RealisesExcept(bridge.flows, KeysOfPorts(gone), w.learning, vfs, Some(nf), w.rpm)
      ensures gone' == gone + {port}
      ensures RealisesExcept(DelFlows(bridge.flows, Match(Some(port), None)),
        KeysOfPorts(gone'), w.learning, vfs, Some(nf), w.rpm)
    {
      DelPortFlows(bridge.flows, gone, port, w.learning, vfs, Some(nf), w.rpm);
      gone' := gone + {port};
    }
  }

  lemma SubsetStaysDistinct(some: set<VfInfo>, all: set<VfInfo>, nf: NfPair, rpm: string)
    requires some <= all && DistinctVfs(all) && DistinctPorts(all, nf, rpm)
    ensures DistinctVfs(some) && DistinctPorts(some, nf, rpm)
  {
  }

  lemma UplinkIsNew(t: Table, hidden: iset<FlowKey>, learning: bool, vfs: set<VfInfo>, nf: NfPair, rpm: string)
    requires hidden == UplinkKeys(nf, rpm)
    requires RealisesExcept(t, hidden, learning, vfs, Some(nf), rpm)
    ensures forall k :: k in hidden ==> k !in t
  {
    forall k | k in hidden ensures k !in t {
      assert Find(t, k) == None;
    }
  }

  lemma NoNfRules(t: Table, learning: bool, vfs: set<VfInfo>, vfs': set<VfInfo>, rpm: string)
    requires Realises(t, learning, vfs, None, rpm)
    ensures Realises(t, learning, vfs', None, rpm)
  {
  }

  /** First stored MAC under a VF name, "" when there is none. */
  method MacOf(vfs: seq<VfInfo>, vfName: string) returns (mac: string)
    ensures !HasVf(VfSet(vfs), vfName) ==> mac == ""
    ensures HasVf(VfSet(vfs), vfName) ==> VfInfo(vfName, mac) in vfs
  {
    mac := "";
    for i := 0 to |vfs|
      invariant !HasVf(VfSet(vfs[..i]), vfName)
    {
      if vfs[i].vfName == vfName {
        mac := vfs[i].mac;
        assert vfs[i] in VfSet(vfs);
        return;
      }
      assert VfSet(vfs[..i + 1]) == VfSet(vfs[..i]) + {vfs[i]};
    }
    assert vfs[..|vfs|] == vfs;
  }

  /** Drops the first entry of that name by shifting the tail down one place. */
  method Without(vfs: seq<VfInfo>, vfName: string) returns (rest: seq<VfInfo>)
    requires NoRepeats(vfs)
    ensures VfSet(rest) == WithoutName(VfSet(vfs), vfName)
    ensures NoRepeats(rest)
  {
    rest := vfs;
    for i := 0 to |vfs|
      invariant rest == vfs
      invariant forall j :: 0 <= j < i ==> vfs[j].vfName != vfName
    {
      if vfs[i].vfName == vfName {
        rest := vfs[..i] + vfs[i + 1..];
        return;
      }
    }
  }
}
