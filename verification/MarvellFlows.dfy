/** The flow table the Marvell data plane should hold, as a function of the stored VFs and the
    active network function, and the algebra that keeps it so. */
module MarvellFlows {
  import opened Common
  import opened OpenFlow

  const NORMAL_PRIORITY: nat := 65535
  const DEFAULT_PRIORITY: nat := 32768
  const HAIRPIN_PRIORITY: nat := 100
  const PORT_PRIORITY: nat := 10

  datatype VfInfo = VfInfo(vfName: string, mac: string)

  datatype NfPair = NfPair(inp: string, out: string)

  ghost predicate DistinctVfs(vfs: set<VfInfo>) {
    && (forall v :: v in vfs ==> v.mac != "")
    && (forall v, w :: v in vfs && w in vfs && (v.vfName == w.vfName || v.mac == w.mac) ==> v == w)
  }

  ghost predicate DistinctPorts(vfs: set<VfInfo>, nf: NfPair, rpm: string) {
    && nf.inp != nf.out && nf.inp != rpm && nf.out != rpm
    && forall v :: v in vfs ==> v.vfName !in {nf.inp, nf.out, rpm}
  }

  /** The NORMAL flow a bridge starts with: a learning bridge puts it above everything else. */
  function NormalKey(learning: bool): FlowKey {
    FlowKey(if learning then NORMAL_PRIORITY else 0, Match(None, None))
  }

  ghost predicate HasVf(vfs: set<VfInfo>, name: string) {
    exists v :: v in vfs && v.vfName == name
  }

  ghost function MacOwner(vfs: set<VfInfo>, mac: string): (owner: Option<string>)
    ensures owner.Some? <==> exists v :: v in vfs && v.mac == mac
    ensures owner.Some? ==> VfInfo(owner.value, mac) in vfs
  {
    if exists v :: v in vfs && v.mac == mac then
      var v :| v in vfs && v.mac == mac; Some(v.vfName)
    else
      None
  }

  /** The action the table should hold under `k`, if any: the NORMAL flow and, with a network
      function, the uplink pair and three rules per VF. */
  ghost function Wanted(k: FlowKey, learning: bool, vfs: set<VfInfo>, nf: Option<NfPair>, rpm: string): Option<Action> {
    if k == NormalKey(learning) then Some(Normal)
    else if nf.None? || k.m.inPort.None? then None
    else
      var NfPair(inp, out) := nf.value;
      var port := k.m.inPort.value;
      if k.m.dlDst.None? then
        if k.priority != PORT_PRIORITY then None
        else if port == out then Some(Output(rpm))
        else if port == rpm then Some(Output(out))
        else if HasVf(vfs, port) then Some(Output(inp))
        else None
      else
        var owner := MacOwner(vfs, k.m.dlDst.value);
        if owner.None? then None
        else if k.priority == DEFAULT_PRIORITY && port == inp then Some(Output(owner.value))
        else if k.priority == HAIRPIN_PRIORITY && port == out then Some(ToInPort)
        else None
  }

  /** The table holds what is wanted, except that the keys in `hidden` are empty. */
  ghost predicate RealisesExcept(
    t: Table, hidden: iset<FlowKey>, learning: bool, vfs: set<VfInfo>, nf: Option<NfPair>, rpm: string)
  {
    forall k :: Find(t, k) == if k in hidden then None else Wanted(k, learning, vfs, nf, rpm)
  }

  ghost predicate Realises(t: Table, learning: bool, vfs: set<VfInfo>, nf: Option<NfPair>, rpm: string) {
    RealisesExcept(t, iset{}, learning, vfs, nf, rpm)
  }

  ghost function UplinkKeys(nf: NfPair, rpm: string): iset<FlowKey> {
    iset{PortKey(PORT_PRIORITY, nf.out), PortKey(PORT_PRIORITY, rpm)}
  }

  ghost function KeysOfPorts(ports: set<string>): iset<FlowKey> {
    iset k: FlowKey | k.m.inPort.Some? && k.m.inPort.value in ports
  }

  /** The table is a function of what is stored: two tables for the same VFs and pair are equal. */
  lemma TableIsDetermined(t: Table, u: Table, learning: bool, vfs: set<VfInfo>, nf: Option<NfPair>, rpm: string)
    requires Realises(t, learning, vfs, nf, rpm) && Realises(u, learning, vfs, nf, rpm)
    ensures t == u
  {
    forall k ensures Find(t, k) == Find(u, k) {
      assert Find(t, k) == Wanted(k, learning, vfs, nf, rpm);
    }
    SameMap(t, u);
  }

  function WithVfRules(t: Table, v: VfInfo, nf: NfPair): Table {
    var t1 := AddFlow(t, PortKey(PORT_PRIORITY, v.vfName), Output(nf.inp));
    var t2 := AddFlow(t1, PortMacKey(DEFAULT_PRIORITY, nf.inp, v.mac), Output(v.vfName));
    AddFlow(t2, PortMacKey(HAIRPIN_PRIORITY, nf.out, v.mac), ToInPort)
  }

  function WithoutVfRules(t: Table, v: VfInfo, nf: NfPair): Table {
    var t1 := DelFlows(t, Match(Some(v.vfName), None));
    var t2 := DelFlows(t1, Match(Some(nf.out), Some(v.mac)));
    DelFlows(t2, Match(Some(nf.inp), Some(v.mac)))
  }

  function WithUplink(t: Table, nf: NfPair, rpm: string): Table {
    AddFlow(AddFlow(t, PortKey(PORT_PRIORITY, nf.out), Output(rpm)), PortKey(PORT_PRIORITY, rpm), Output(nf.out))
  }

  /** Adding a port's three rules to the table for `vfs` gives the table for `vfs + {v}`, whether or
      not the uplink is in place yet. */
  lemma AddVfRules(
    t: Table, hidden: iset<FlowKey>, learning: bool, vfs: set<VfInfo>, v: VfInfo, nf: NfPair, rpm: string)
    requires DistinctVfs(vfs + {v}) && DistinctPorts(vfs + {v}, nf, rpm)
    requires hidden <= UplinkKeys(nf, rpm)
    requires RealisesExcept(t, hidden, learning, vfs, Some(nf), rpm)
    ensures RealisesExcept(WithVfRules(t, v, nf), hidden, learning, vfs + {v}, Some(nf), rpm)
    ensures SubTable(t, WithVfRules(t, v, nf))
  {
    var u := WithVfRules(t, v, nf);
    forall k
      ensures Find(u, k) == if k in hidden then None else Wanted(k, learning, vfs + {v}, Some(nf), rpm)
      ensures k in t ==> Find(u, k) == Find(t, k)
    {
      assert Find(t, k) == if k in hidden then None else Wanted(k, learning, vfs, Some(nf), rpm);
    }
    assert forall k :: k in t ==> Find(u, k) == Find(t, k);
    assert forall k | k in t :: Find(t, k) == Some(t[k]);
    assert forall k | k in u :: Find(u, k) == Some(u[k]);
  }

  /** The three non-strict deletes take away exactly the rules of `v`: none of them reaches a rule
      of another VF or the uplink. */
  lemma DelVfRules(t: Table, learning: bool, vfs: set<VfInfo>, v: VfInfo, nf: NfPair, rpm: string)
    requires v in vfs && DistinctVfs(vfs) && DistinctPorts(vfs, nf, rpm)
    requires Realises(t, learning, vfs, Some(nf), rpm)
    ensures Realises(WithoutVfRules(t, v, nf), learning, vfs - {v}, Some(nf), rpm)
  {
    forall k ensures Find(WithoutVfRules(t, v, nf), k) == Wanted(k, learning, vfs - {v}, Some(nf), rpm) {
      assert Find(t, k) == Wanted(k, learning, vfs, Some(nf), rpm);
    }
  }

  /** Before its rules are added, a network function changes nothing but the uplink-free table. */
  lemma StartNf(t: Table, learning: bool, vfs: set<VfInfo>, nf: NfPair, rpm: string)
    requires Realises(t, learning, vfs, None, rpm)
    ensures RealisesExcept(t, UplinkKeys(nf, rpm), learning, {}, Some(nf), rpm)
  {
    forall k
      ensures Find(t, k) == if k in UplinkKeys(nf, rpm) then None else Wanted(k, learning, {}, Some(nf), rpm)
    {
      assert Find(t, k) == Wanted(k, learning, vfs, None, rpm);
    }
  }

  lemma AddUplink(t: Table, learning: bool, vfs: set<VfInfo>, nf: NfPair, rpm: string)
    requires DistinctPorts(vfs, nf, rpm)
    requires RealisesExcept(t, UplinkKeys(nf, rpm), learning, vfs, Some(nf), rpm)
    ensures Realises(WithUplink(t, nf, rpm), learning, vfs, Some(nf), rpm)
  {
    forall k ensures Find(WithUplink(t, nf, rpm), k) == Wanted(k, learning, vfs, Some(nf), rpm) {
      assert Find(t, k) == if k in UplinkKeys(nf, rpm) then None else Wanted(k, learning, vfs, Some(nf), rpm);
    }
  }

  /** Deleting by input port alone empties that port, hairpins and uplink included. */
  lemma DelPortFlows(
    t: Table, gone: set<string>, port: string, learning: bool, vfs: set<VfInfo>, nf: Option<NfPair>, rpm: string)
    requires RealisesExcept(t, KeysOfPorts(gone), learning, vfs, nf, rpm)
    ensures RealisesExcept(DelFlows(t, Match(Some(port), None)), KeysOfPorts(gone + {port}), learning, vfs, nf, rpm)
  {
    var u := DelFlows(t, Match(Some(port), None));
    forall k
      ensures Find(u, k) == if k in KeysOfPorts(gone + {port}) then None else Wanted(k, learning, vfs, nf, rpm)
    {
      assert Find(t, k) == if k in KeysOfPorts(gone) then None else Wanted(k, learning, vfs, nf, rpm);
    }
  }

  /** Once every port of a network function is emptied, the table is the one without it. */
  lemma EndNf(t: Table, gone: set<string>, learning: bool, vfs: set<VfInfo>, nf: NfPair, rpm: string)
    requires RealisesExcept(t, KeysOfPorts(gone), learning, vfs, Some(nf), rpm)
    requires {nf.inp, nf.out, rpm} <= gone && forall v :: v in vfs ==> v.vfName in gone
    ensures Realises(t, learning, vfs, None, rpm)
  {
    forall k ensures Find(t, k) == Wanted(k, learning, vfs, None, rpm) {
      assert Find(t, k) == if k in KeysOfPorts(gone) then None else Wanted(k, learning, vfs, Some(nf), rpm);
    }
  }

  /** The port of a VF that is not stored has no rules to delete. */
  lemma UnknownPortIsEmpty(t: Table, name: string, learning: bool, vfs: set<VfInfo>, nf: NfPair, rpm: string)
    requires !HasVf(vfs, name) && name !in {nf.inp, nf.out, rpm}
    requires Realises(t, learning, vfs, Some(nf), rpm)
    ensures DelFlows(t, Match(Some(name), None)) == t
  {
    forall k | k in t ensures !Subsumes(Match(Some(name), None), k.m) {
      assert Find(t, k) == Wanted(k, learning, vfs, Some(nf), rpm);
    }
  }

  /** Deleting a bridge port whose VF is not stored looks its MAC up as "", and a delete without MAC
      empties the whole input and output port of the network function. */
  lemma DelUnknownVf(t: Table, name: string, learning: bool, vfs: set<VfInfo>, nf: NfPair, rpm: string)
    requires DistinctVfs(vfs) && DistinctPorts(vfs, nf, rpm)
    requires !HasVf(vfs, name)
    requires Realises(t, learning, vfs, Some(nf), rpm)
    ensures var u :=
      DelFlows(DelFlows(DelFlows(t, Match(Some(name), None)), Match(Some(nf.out), None)), Match(Some(nf.inp), None));
      && RealisesExcept(u, KeysOfPorts({name, nf.out, nf.inp}), learning, vfs, Some(nf), rpm)
      && !Realises(u, learning, vfs, Some(nf), rpm)
  {
    var t1 := DelFlows(t, Match(Some(name), None));
    var t2 := DelFlows(t1, Match(Some(nf.out), None));
    var u := DelFlows(t2, Match(Some(nf.inp), None));
    assert KeysOfPorts({}) == iset{};
    DelPortFlows(t, {}, name, learning, vfs, Some(nf), rpm);
    assert {} + {name} == {name};
    DelPortFlows(t1, {name}, nf.out, learning, vfs, Some(nf), rpm);
    assert {name} + {nf.out} == {name, nf.out};
    DelPortFlows(t2, {name, nf.out}, nf.inp, learning, vfs, Some(nf), rpm);
    assert {name, nf.out} + {nf.inp} == {name, nf.out, nf.inp};
    var k := PortKey(PORT_PRIORITY, nf.out);
    assert Find(u, k) == None && Wanted(k, learning, vfs, Some(nf), rpm) == Some(Output(rpm));
  }

  /** Where a packet should go: by the network function's path, or by NORMAL. */
  ghost function Route(p: Packet, learning: bool, vfs: set<VfInfo>, nf: Option<NfPair>, rpm: string): Action {
    if learning || nf.None? then Normal
    else
      var NfPair(inp, out) := nf.value;
      var owner := MacOwner(vfs, p.dlDst);
      if p.inPort == inp then (if owner.Some? then Output(owner.value) else Normal)
      else if p.inPort == out then (if owner.Some? then ToInPort else Output(rpm))
      else if p.inPort == rpm then Output(out)
      else if HasVf(vfs, p.inPort) then Output(inp)
      else Normal
  }

  ghost function RouteKey(p: Packet, learning: bool, vfs: set<VfInfo>, nf: Option<NfPair>, rpm: string): FlowKey {
    if learning || nf.None? then NormalKey(learning)
    else
      var NfPair(inp, out) := nf.value;
      var owner := MacOwner(vfs, p.dlDst);
      if p.inPort == inp then (if owner.Some? then PortMacKey(DEFAULT_PRIORITY, inp, p.dlDst) else NormalKey(false))
      else if p.inPort == out && owner.Some? then PortMacKey(HAIRPIN_PRIORITY, out, p.dlDst)
      else if p.inPort in {out, rpm} || HasVf(vfs, p.inPort) then PortKey(PORT_PRIORITY, p.inPort)
      else NormalKey(false)
  }

  /** Every packet is decided by exactly one flow of the table, and that flow routes it as intended.
      On a learning bridge this is always NORMAL, so the network function's rules never apply. */
  lemma PacketMeaning(t: Table, p: Packet, learning: bool, vfs: set<VfInfo>, nf: Option<NfPair>, rpm: string)
    requires DistinctVfs(vfs) && (nf.Some? ==> DistinctPorts(vfs, nf.value, rpm))
    requires Realises(t, learning, vfs, nf, rpm)
    ensures exists k :: Decides(t, p, k) && t[k] == Route(p, learning, vfs, nf, rpm)
  {
    var k := RouteKey(p, learning, vfs, nf, rpm);
    assert Find(t, k) == Wanted(k, learning, vfs, nf, rpm) == Some(Route(p, learning, vfs, nf, rpm));
    forall other | other in t && Hits(other.m, p) && other != k ensures other.priority < k.priority {
      assert Find(t, other) == Wanted(other, learning, vfs, nf, rpm);
    }
    assert Decides(t, p, k);
  }
}
