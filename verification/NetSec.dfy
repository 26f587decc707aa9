/** The Intel NetSec vendor plugin: VF device records, shared by pointer between the table of VFs and
    the service function chain, while ports come and go and the number of VFs is set anew. */
module NetSec {
  import opened Common
  import opened BridgePortName

  const VLAN_OFFSET: int := 2

  datatype VfKey = VfKey(pf: string, id: int)

  class VfDevice {
    const key: VfKey
    const vlan: int
    var isAllocated: bool

    constructor (key: VfKey, vlan: int)
      ensures this.key == key && this.vlan == vlan && !isAllocated
    {
      this.key, this.vlan, isAllocated := key, vlan, false;
    }
  }

  datatype RepDev = RepDev(dev: VfDevice, hostMac: string)

  datatype Event = Create(portName: string, mac: string) | Delete(portName: string) | SetCount(count: int)

  /* ----- the machine without records ----- */

  datatype State = State(known: set<VfKey>, hostMacs: map<VfKey, string>)

  function KeyOn(pf: string, portName: string): Option<VfKey> {
    if NetSecVf(portName).Some? then Some(VfKey(pf, NetSecVf(portName).value)) else None
  }

  function FirstVfs(pf: string, count: int): set<VfKey> {
    set id | 0 <= id < count :: VfKey(pf, id)
  }

  /** A port is created for a known VF that has none, and deleted where there is one. */
  ghost function Step(pf: string, s: State, e: Event): State {
    match e
    case Create(portName, mac) =>
      var key := KeyOn(pf, portName);
      if key.Some? && key.value in s.known && key.value !in s.hostMacs then
        s.(hostMacs := s.hostMacs[key.value := mac])
      else s
    case Delete(portName) =>
      var key := KeyOn(pf, portName);
      if key.Some? && key.value in s.known then s.(hostMacs := s.hostMacs - {key.value}) else s
    case SetCount(count) => s.(known := s.known + FirstVfs(pf, count))
  }

  ghost function RunOf(pf: string, s: State, events: seq<Event>): State
    decreases |events|
  {
    if events == [] then s else RunOf(pf, Step(pf, s, events[0]), events[1..])
  }

  /** The number of VFs is only set while no port is there. */
  ghost predicate QuietRun(pf: string, s: State, events: seq<Event>)
    decreases |events|
  {
    events == [] ||
      ((events[0].SetCount? ==> s.hostMacs == map[]) && QuietRun(pf, Step(pf, s, events[0]), events[1..]))
  }

  ghost predicate Deletes(pf: string, e: Event, key: VfKey) {
    e.Delete? && KeyOn(pf, e.portName) == Some(key)
  }

  lemma NoPortsNoMacs(chain: map<VfKey, RepDev>)
    ensures chain == map[] <==> HostMacs(chain) == map[]
  {
    if chain != map[] {
      var k :| k in chain;
      assert k in HostMacs(chain);
    }
  }

  ghost function HostMacs(chain: map<VfKey, RepDev>): map<VfKey, string> {
    map k | k in chain :: chain[k].hostMac
  }

  function RecordsOf(devs: map<VfKey, VfDevice>, chain: map<VfKey, RepDev>): set<VfDevice> {
    devs.Values + set k | k in chain :: chain[k].dev
  }

  /** The chain once a port is created, where that is possible. */
  function WithPort(
    pf: string, devs: map<VfKey, VfDevice>, chain: map<VfKey, RepDev>, portName: string, mac: string)
    : map<VfKey, RepDev>
  {
    var key := KeyOn(pf, portName);
    if key.Some? && key.value in devs && key.value !in chain then chain[key.value := RepDev(devs[key.value], mac)]
    else chain
  }

  lemma CreateKeeps(pf: string, devs: map<VfKey, VfDevice>, chain: map<VfKey, RepDev>, portName: string, mac: string)
    ensures var chain' := WithPort(pf, devs, chain, portName, mac);
      && RecordsOf(devs, chain') <= RecordsOf(devs, chain)
      && forall k :: k in chain ==> k in chain' && chain'[k] == chain[k]
  {
  }

  lemma CreateIsSimple(
    pf: string, devs: map<VfKey, VfDevice>, chain: map<VfKey, RepDev>, portName: string, mac: string)
    ensures Step(pf, State(devs.Keys, HostMacs(chain)), Create(portName, mac)) ==
      State(devs.Keys, HostMacs(WithPort(pf, devs, chain, portName, mac)))
  {
    var key := KeyOn(pf, portName);
    if key.Some? && key.value in devs && key.value !in chain {
      var r := RepDev(devs[key.value], mac);
      assert HostMacs(chain[key.value := r]) == HostMacs(chain)[key.value := mac];
    }
  }

  lemma DeleteIsSimple(pf: string, devs: map<VfKey, VfDevice>, chain: map<VfKey, RepDev>, portName: string)
    ensures var key := KeyOn(pf, portName);
      Step(pf, State(devs.Keys, HostMacs(chain)), Delete(portName)) ==
        State(devs.Keys, HostMacs(
          if key.Some? && key.value in devs && key.value in chain then chain - {key.value} else chain))
  {
    var key := KeyOn(pf, portName);
    if key.Some? && key.value !in chain { assert HostMacs(chain) - {key.value} == HostMacs(chain); }
  }

  class Vsp {
    /** Netdev name of the one physical function. */
    const pf: string
    const faults: Faults
    var vfDevs: map<VfKey, VfDevice>
    var chain: map<VfKey, RepDev>

    ghost function Records(): set<VfDevice>
      reads this
    {
      RecordsOf(vfDevs, chain)
    }

    /** What every run keeps: records carry the key they are under, a chain entry's record is marked
        allocated, and a marked record in the table is the very object of its chain entry. */
    ghost predicate Valid()
      reads this, Records()
    {
      && (forall k :: k in vfDevs ==> vfDevs[k].key == k && vfDevs[k].vlan == k.id + VLAN_OFFSET)
      && (forall k :: k in chain ==> chain[k].dev.key == k && chain[k].dev.isAllocated)
      && (forall k :: k in vfDevs && vfDevs[k].isAllocated ==> k in chain && chain[k].dev == vfDevs[k])
    }

    /** Every chain entry still shares its record with the table. */
    ghost predicate Aligned()
      reads this
    {
      forall k :: k in chain ==> k in vfDevs && vfDevs[k] == chain[k].dev
    }

    lemma VlansDiffer(k: VfKey, l: VfKey)
      requires Valid() && k in vfDevs && l in vfDevs && k.pf == l.pf && k != l
      ensures vfDevs[k].vlan != vfDevs[l].vlan
      ensures vfDevs[k].vlan == k.id + 2
    {
      assert k.id != l.id;
    }

    constructor (pf: string, faults: Faults)
      ensures this.pf == pf && this.faults == faults
      ensures Valid() && Aligned() && vfDevs == map[] && chain == map[]
    {
      this.pf, this.faults, vfDevs, chain := pf, faults, map[], map[];
    }

    ghost function KeyOf(portName: string): Option<VfKey> {
      KeyOn(pf, portName)
    }

    method GetConnectedVf(portName: string) returns (vf: Option<VfDevice>)
      modifies faults
      ensures vf.Some? ==>
        KeyOf(portName).Some? && KeyOf(portName).value in vfDevs && vf.value == vfDevs[KeyOf(portName).value]
      ensures old(faults.script) == [] ==> faults.script == []
      ensures vf.Some? <==>
        KeyOf(portName).Some? && KeyOf(portName).value in vfDevs && Works(old(faults.script))
      ensures vf.Some? ==> faults.script == Rest(old(faults.script))
    {
      vf := None;
      var id := NetSecVf(portName);
      if id == None { return; }
      var ok := faults.Next();  // netdev name of the PF
      if !ok { return; }
      var key := VfKey(pf, id.value);
      if key in vfDevs { vf := Some(vfDevs[key]); }
    }

    method CreateBridgePort(portName: string, mac: string) returns (ok: bool)
      requires Valid()
      modifies this`chain, Records(), faults
      ensures Valid() && (old(Aligned()) ==> Aligned())
      ensures ok ==>
        && KeyOf(portName).Some? && KeyOf(portName).value in vfDevs && KeyOf(portName).value !in old(chain)
        && var key := KeyOf(portName).value; chain == old(chain)[key := RepDev(vfDevs[key], mac)]
      ensures !ok ==> chain == old(chain)
      ensures old(faults.script) == [] ==> faults.script == []
      ensures ok <==>
        && KeyOf(portName).Some? && KeyOf(portName).value in vfDevs && KeyOf(portName).value !in old(chain)
        && AllWork(old(faults.script), 3)
    {
      OneByOne(faults.script);
      var vf := GetConnectedVf(portName);
      if vf == None { return false; }
      ok := CreatePortOf(vf.value, mac);
    }

    method CreatePortOf(dev: VfDevice, mac: string) returns (ok: bool)
      requires Valid() && dev.key in vfDevs && vfDevs[dev.key] == dev
      modifies this`chain, dev, faults
      ensures Valid() && (old(Aligned()) ==> Aligned())
      ensures ok ==> dev.key !in old(chain)
      ensures chain == if ok then old(chain)[dev.key := RepDev(dev, mac)] else old(chain)
      ensures old(faults.script) == [] ==> faults.script == []
      ensures ok <==> dev.key !in old(chain) && AllWork(old(faults.script), 2)
    {
      OneByOne(faults.script);
      OneByOne(Rest(faults.script));
      if dev.isAllocated { return false; }
      ok := faults.Next();  // netdev ready
      if !ok { return; }
      ok := faults.Next();  // up and on the bridge
      if !ok { return; }
      if dev.key in chain { return false; }
      AddToChain(dev, mac);
    }

    method AddToChain(dev: VfDevice, mac: string)
      requires Valid() && dev.key in vfDevs && vfDevs[dev.key] == dev && dev.key !in chain
      modifies this`chain, dev
      ensures Valid() && (old(Aligned()) ==> Aligned())
      ensures chain == old(chain)[dev.key := RepDev(dev, mac)]
    {
      chain := chain[dev.key := RepDev(dev, mac)];
      dev.isAllocated := true;
    }

    method DeleteBridgePort(portName: string) returns (ok: bool)
      requires Valid()
      modifies this`chain, Records(), faults
      ensures Valid() && (old(Aligned()) ==> Aligned())
      ensures ok ==>
        && KeyOf(portName).Some? && KeyOf(portName).value in vfDevs && KeyOf(portName).value in old(chain)
        && chain == old(chain) - {KeyOf(portName).value}
        && !old(chain)[KeyOf(portName).value].dev.isAllocated
      ensures !ok ==> chain == old(chain)
      ensures old(faults.script) == [] ==> faults.script == []
      ensures ok <==>
        && KeyOf(portName).Some? && KeyOf(portName).value in vfDevs && KeyOf(portName).value in old(chain)
        && AllWork(old(faults.script), 3)
    {
      OneByOne(faults.script);
      var vf := GetConnectedVf(portName);
      if vf == None { return false; }
      ok := DeletePortOf(vf.value);
    }

    method DeletePortOf(dev: VfDevice) returns (ok: bool)
      requires Valid()
      modifies this`chain, Records(), faults
      ensures Valid() && (old(Aligned()) ==> Aligned())
      ensures ok ==> dev.key in old(chain) && !old(chain)[dev.key].dev.isAllocated
      ensures chain == if ok then old(chain) - {dev.key} else old(chain)
      ensures old(faults.script) == [] ==> faults.script == []
      ensures ok <==> dev.key in old(chain) && AllWork(old(faults.script), 2)
    {
      OneByOne(faults.script);
      OneByOne(Rest(faults.script));
      ok := faults.Next();  // netdev ready
      if !ok { return; }
      ok := faults.Next();  // down and off the bridge
      if !ok { return; }
      ok := TakeFromChain(dev.key);
    }

    /** Frees the record of the chain entry, which need not be the one in the table any more. */
    method TakeFromChain(key: VfKey) returns (ok: bool)
      requires Valid()
      modifies this`chain, Records()
      ensures Valid() && (old(Aligned()) ==> Aligned())
      ensures ok <==> key in old(chain)
      ensures ok ==> !old(chain)[key].dev.isAllocated
      ensures chain == old(chain) - {key}
    {
      if key !in chain { return false; }
      var fromChain := chain[key].dev;
      if !fromChain.isAllocated { return false; }
      fromChain.isAllocated := false;
      chain := chain - {key};
      return true;
    }

    /** The keys a renewal of the first `n` VFs touches. */
    predicate InFirst(n: int, k: VfKey) {
      k.pf == pf && 0 <= k.id < n
    }

    /** Only the first `n` VFs have other records than before. */
    ghost predicate NewOnly(was: map<VfKey, VfDevice>, now: map<VfKey, VfDevice>, n: int) {
      && (forall k :: k in now <==> k in was || InFirst(n, k))
      && forall k :: k in was && !InFirst(n, k) ==> now[k] == was[k]
    }

    lemma OneMore(was: map<VfKey, VfDevice>, now: map<VfKey, VfDevice>, now': map<VfKey, VfDevice>, n: nat)
      requires NewOnly(was, now, n)
      requires VfKey(pf, n) in now' && now' == now[VfKey(pf, n) := now'[VfKey(pf, n)]]
      ensures NewOnly(was, now', n + 1)
      ensures forall k :: InFirst(n + 1, k) <==> InFirst(n, k) || k == VfKey(pf, n)
    {
      forall k ensures InFirst(n + 1, k) <==> InFirst(n, k) || k == VfKey(pf, n) {}
    }

    /** One VF gets a new record, unallocated whatever the old one was. */
    method Renew(id: nat)
      requires Valid()
      modifies this`vfDevs
      ensures Valid()
      ensures VfKey(pf, id) in vfDevs && fresh(vfDevs[VfKey(pf, id)]) && !vfDevs[VfKey(pf, id)].isAllocated
      ensures vfDevs == old(vfDevs)[VfKey(pf, id) := vfDevs[VfKey(pf, id)]]
    {
      var key := VfKey(pf, id);
      var dev := new VfDevice(key, id + VLAN_OFFSET);
      vfDevs := vfDevs[key := dev];
    }

    /** New records replace those of the first VFs, up to the first failure. Ports of replaced records
        stay in the chain, which from then on no longer shares their records with the table. */
    method SetNumVfs(count: int) returns (ok: bool, renewed: nat)
      requires Valid()
      modifies this`vfDevs, faults
      ensures Valid()
      ensures ok ==> renewed == if count < 0 then 0 else count
      ensures forall k :: k in vfDevs <==> k in old(vfDevs) || InFirst(renewed, k)
      ensures forall k :: k in vfDevs && InFirst(renewed, k) ==> fresh(vfDevs[k]) && !vfDevs[k].isAllocated
      ensures forall k :: k in vfDevs && InFirst(renewed, k) ==> vfDevs[k].vlan == k.id + 2 >= 2
      ensures forall k :: k in old(vfDevs) && !InFirst(renewed, k) ==> vfDevs[k] == old(vfDevs)[k]
      ensures ok <==> AllWork(old(faults.script), if count < 0 then 1 else count + 1)
      ensures old(faults.script) == [] ==> faults.script == []
    {
      OneByOne(faults.script);
      FirstAndThen(faults.script, 1, if count < 0 then 0 else count);
      renewed := 0;
      ok := faults.Next();  // sriov_numvfs
      if !ok || count < 0 { return; }
      ok, renewed := RenewFirst(count);
    }

    /** The records of the first `n` VFs are among those `made`, and unallocated. */
    ghost predicate Made(n: int, made: set<VfDevice>)
      reads this, vfDevs.Values
    {
      forall k :: k in vfDevs && InFirst(n, k) ==> vfDevs[k] in made && !vfDevs[k].isAllocated
    }

    /** The loop over the first VFs. */
    method RenewFirst(count: nat) returns (ok: bool, renewed: nat)
      requires Valid()
      modifies this`vfDevs, faults
      ensures Valid() && renewed <= count && (ok ==> renewed == count)
      ensures NewOnly(old(vfDevs), vfDevs, renewed)
      ensures forall k :: k in vfDevs && InFirst(renewed, k) ==> fresh(vfDevs[k]) && !vfDevs[k].isAllocated
      ensures ok <==> AllWork(old(faults.script), count)
      ensures old(faults.script) == [] ==> faults.script == []
    {
      ghost var script, made := faults.script, {};
      renewed := 0;
      while renewed < count
        invariant renewed <= count && Valid()
        invariant NewOnly(old(vfDevs), vfDevs, renewed) && Made(renewed, made) && fresh(made)
        invariant AllWork(script, renewed) && faults.script == Drop(script, renewed)
      {
        NextOne(script, renewed, count);
        ok := faults.Next();  // VLAN, spoof check, trust, netdev ready
        if !ok { return; }
        made := RenewNext(renewed, old(vfDevs), made);
        renewed := renewed + 1;
      }
      ok := true;
    }

    method RenewNext(renewed: nat, ghost was: map<VfKey, VfDevice>, ghost made: set<VfDevice>)
      returns (ghost made': set<VfDevice>)
      requires Valid() && NewOnly(was, vfDevs, renewed) && Made(renewed, made)
      modifies this`vfDevs
      ensures Valid() && NewOnly(was, vfDevs, renewed + 1) && Made(renewed + 1, made')
      ensures fresh(made' - made)
    {
      ghost var before := vfDevs;
      Renew(renewed);
      OneMore(was, before, vfDevs, renewed);
      made' := made + {vfDevs[VfKey(pf, renewed)]};
    }

    /** Renewing VFs keeps chain and table aligned exactly when none of their ports is allocated. */
    twostate lemma RenewalAligns(renewed: nat)
      requires old(Valid()) && old(Aligned()) && Valid() && chain == old(chain)
      requires forall k :: k in vfDevs && InFirst(renewed, k) ==> !vfDevs[k].isAllocated
      requires forall k :: k in vfDevs <==> k in old(vfDevs) || InFirst(renewed, k)
      requires forall k :: k in old(vfDevs) && !InFirst(renewed, k) ==> vfDevs[k] == old(vfDevs)[k]
      ensures Aligned() <==> forall k :: k in chain ==> !InFirst(renewed, k)
    {
    }

    /** The records away: which VFs are known, and the host MAC of each port that is there. */
    ghost function View(): State
      reads this
    {
      State(vfDevs.Keys, HostMacs(chain))
    }

    method HandleCreate(portName: string, mac: string)
      requires Valid()
      modifies this`chain, Records(), faults
      ensures Valid() && (old(Aligned()) ==> Aligned())
      ensures forall k :: k in old(chain) ==> k in chain && chain[k] == old(chain)[k]
      ensures Records() <= old(Records())
      ensures old(faults.script) == [] ==> faults.script == [] && View() == Step(pf, old(View()), Create(portName, mac))
    {
      CreateIsSimple(pf, vfDevs, chain, portName, mac);
      CreateKeeps(pf, vfDevs, chain, portName, mac);
      var ok := CreateBridgePort(portName, mac);
      assert chain == if ok then WithPort(pf, vfDevs, old(chain), portName, mac) else old(chain);
    }

    method HandleDelete(portName: string)
      requires Valid()
      modifies this`chain, Records(), faults
      ensures Valid() && (old(Aligned()) ==> Aligned())
      ensures forall k :: k in chain ==> k in old(chain) && chain[k] == old(chain)[k]
      ensures forall k :: k in old(chain) && k !in chain ==> KeyOn(pf, portName) == Some(k)
      ensures old(faults.script) == [] ==> faults.script == [] && View() == Step(pf, old(View()), Delete(portName))
    {
      DeleteIsSimple(pf, vfDevs, chain, portName);
      var _ := DeleteBridgePort(portName);
    }

    method HandleSetCount(count: int)
      requires Valid()
      modifies this`vfDevs, faults
      ensures Valid() && (chain == map[] ==> Aligned())
      ensures fresh(Records() - old(Records()))
      ensures old(faults.script) == [] ==> faults.script == [] && View() == Step(pf, old(View()), SetCount(count))
    {
      var ok, renewed := SetNumVfs(count);
      if ok {
        assert forall k :: k in FirstVfs(pf, count) <==> InFirst(renewed, k);
        assert vfDevs.Keys == old(vfDevs).Keys + FirstVfs(pf, count);
      }
    }

    /** One request; `quiet` is false when it sets the number of VFs while ports are there. */
    method Handle(e: Event) returns (ghost quiet: bool)
      requires Valid()
      modifies this, Records(), faults
      ensures Valid() && (quiet && old(Aligned()) ==> Aligned())
      ensures quiet <==> (e.SetCount? ==> old(View()).hostMacs == map[])
      ensures forall k :: k in old(chain) && k in chain ==> chain[k] == old(chain)[k]
      ensures forall k :: k in old(chain) && k !in chain ==> Deletes(pf, e, k)
      ensures fresh(Records() - old(Records()))
      ensures old(faults.script) == [] ==> faults.script == [] && View() == Step(pf, old(View()), e)
    {
      NoPortsNoMacs(chain);
      quiet := true;
      match e {
        case Create(portName, mac) => HandleCreate(portName, mac);
        case Delete(portName) => HandleDelete(portName);
        case SetCount(count) =>
          quiet := chain == map[];
          HandleSetCount(count);
      }
    }

    /** Any run. A port that no request deletes keeps its record and host MAC. Chain and table stay
        aligned if the number of VFs is only set while no port is there, which `quiet` says. While
        nothing fails, known VFs and ports are those of the simple machine that has no records. */
    method Run(events: seq<Event>) returns (ghost quiet: bool)
      requires Valid()
      modifies this, Records(), faults
      decreases |events|
      ensures Valid()
      ensures quiet && old(Aligned()) ==>
        Aligned() && forall k :: k in vfDevs ==> (vfDevs[k].isAllocated <==> k in chain)
      ensures forall k :: k in old(chain) && (forall e :: e in events ==> !Deletes(pf, e, k)) ==>
        k in chain && chain[k] == old(chain)[k]
      ensures old(faults.script) == [] ==>
        View() == RunOf(pf, old(View()), events) && (quiet <==> QuietRun(pf, old(View()), events))
    {
      if events == [] { return true; }
      ghost var first := Handle(events[0]);
      ghost var rest := Run(events[1..]);
      quiet := first && rest;
    }
  }
}
