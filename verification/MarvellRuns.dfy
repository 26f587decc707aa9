/** Whole runs of the Marvell plugin: any number of bridge-port and network-function requests, in
    any order the callers may send them. */
module MarvellRuns {
  import opened Common
  import opened OpenFlow
  import opened MarvellFlows
  import opened MarvellVsp

  datatype Request =
    | CreatePort(portName: string, mac: string)
    | DeletePort(portName: string)
    | CreateNf(input: string, output: string)
    | DeleteNf(input: string, output: string)

  /** All that ports and flows depend on. */
  datatype Stored = Stored(vfs: set<VfInfo>, nf: Option<NfPair>)

  ghost predicate KnownPair(w: Wiring, input: string, output: string) {
    input in w.deviceStore && output in w.deviceStore && input != output
  }

  /** What callers keep to: no port is created twice, MACs are distinct, ports of an active network
      function are deleted only if they exist, and there is one network function at a time, deleted
      with the pair it was created with. */
  ghost predicate Legal(w: Wiring, s: Stored, r: Request) {
    match r
    case CreatePort(portName, mac) =>
      && portName in w.vfOf && mac != ""
      && forall v :: v in s.vfs ==> v.vfName != w.vfOf[portName] && v.mac != mac
    case DeletePort(portName) => portName in w.vfOf && (s.nf == None || HasVf(s.vfs, w.vfOf[portName]))
    case CreateNf(input, output) => s.nf == None && KnownPair(w, input, output)
    case DeleteNf(input, output) =>
      KnownPair(w, input, output) && s.nf == Some(NfPair(w.deviceStore[input], w.deviceStore[output]))
  }

  ghost function Step(w: Wiring, s: Stored, r: Request): Stored
    requires Legal(w, s, r)
  {
    match r
    case CreatePort(portName, mac) => s.(vfs := s.vfs + {VfInfo(w.vfOf[portName], mac)})
    case DeletePort(portName) => s.(vfs := WithoutName(s.vfs, w.vfOf[portName]))
    case CreateNf(input, output) => s.(nf := Some(NfPair(w.deviceStore[input], w.deviceStore[output])))
    case DeleteNf(input, output) => s.(nf := None)
  }

  ghost predicate LegalRun(w: Wiring, s: Stored, rs: seq<Request>)
    decreases |rs|
  {
    rs != [] ==> Legal(w, s, rs[0]) && LegalRun(w, Step(w, s, rs[0]), rs[1..])
  }

  ghost function Run(w: Wiring, s: Stored, rs: seq<Request>): Stored
    requires LegalRun(w, s, rs)
    decreases |rs|
  {
    if rs == [] then s else Run(w, Step(w, s, rs[0]), rs[1..])
  }

  ghost function StoredIn(vsp: Vsp): Stored
    reads vsp
  {
    Stored(Vfs(vsp.networkStore), Nf(vsp.networkStore, vsp.isNF))
  }

  method Handle(vsp: Vsp, r: Request) returns (reply: Reply)
    requires vsp.InSync() && Legal(vsp.w, StoredIn(vsp), r)
    modifies vsp, vsp.bridge, vsp.bridge.faults
    ensures reply == Done ==> vsp.InSync() && StoredIn(vsp) == Step(vsp.w, old(StoredIn(vsp)), r)
    ensures old(vsp.bridge.faults.script) == [] ==> reply == Done && vsp.bridge.faults.script == []
  {
    match r
    case CreatePort(portName, mac) => reply := vsp.CreateBridgePort(portName, mac);
    case DeletePort(portName) => reply := vsp.DeleteBridgePort(portName);
    case CreateNf(input, output) => reply := vsp.CreateNetworkFunction(input, output);
    case DeleteNf(input, output) => reply := vsp.DeleteNetworkFunction(input, output);
  }

  /** Serves requests up to the first one that is not done. However long the run, the bridge is in
      sync after every request that was done. */
  method Serve(vsp: Vsp, rs: seq<Request>) returns (served: nat)
    requires vsp.InSync() && LegalRun(vsp.w, StoredIn(vsp), rs)
    modifies vsp, vsp.bridge, vsp.bridge.faults
    ensures served <= |rs|
    ensures served == |rs| ==> vsp.InSync() && StoredIn(vsp) == Run(vsp.w, old(StoredIn(vsp)), rs)
    ensures old(vsp.bridge.faults.script) == [] ==> served == |rs|
  {
    served := 0;
    ghost var s0 := StoredIn(vsp);
    while served < |rs|
      invariant served <= |rs| && vsp.InSync()
      invariant LegalRun(vsp.w, StoredIn(vsp), rs[served..])
      invariant Run(vsp.w, StoredIn(vsp), rs[served..]) == Run(vsp.w, s0, rs)
      invariant old(vsp.bridge.faults.script) == [] ==> vsp.bridge.faults.script == []
    {
      assert rs[served..][1..] == rs[served + 1..];
      var reply := Handle(vsp, rs[served]);
      if reply != Done { return; }
      served := served + 1;
    }
  }

  /** In every reachable state each packet is decided by one flow, which routes it as intended. */
  lemma EveryPacketIsRouted(vsp: Vsp, p: Packet)
    requires vsp.InSync()
    ensures var s, flows := StoredIn(vsp), vsp.bridge.flows;
      exists k :: Decides(flows, p, k) && flows[k] == Route(p, vsp.w.learning, s.vfs, s.nf, vsp.w.rpm)
  {
    var s := StoredIn(vsp);
    if s.nf.Some? {
      PairPortsAreDistinct(vsp.w, s.vfs, s.nf.value);
    }
    PacketMeaning(vsp.bridge.flows, p, vsp.w.learning, s.vfs, s.nf, vsp.w.rpm);
  }

  /* ----- order independence ----- */

  predicate IsCreate(r: Request) { r.CreatePort? || r.CreateNf? }

  /** Two creates that may both be part of one run. */
  ghost predicate Compatible(w: Wiring, r: Request, r': Request) {
    match (r, r')
    case (CreatePort(p, m), CreatePort(p', m')) => p in w.vfOf && p' in w.vfOf && w.vfOf[p] != w.vfOf[p'] && m != m'
    case (CreateNf(_, _), CreateNf(_, _)) => false
    case _ => true
  }

  ghost predicate Creates(w: Wiring, s: Stored, rs: seq<Request>) {
    && (forall r :: r in rs ==> IsCreate(r) && Legal(w, s, r))
    && forall i, j :: 0 <= i < j < |rs| ==> Compatible(w, rs[i], rs[j])
  }

  /** Legality of a run of creates does not mention the order. */
  lemma {:induction false} CreatesAreLegal(w: Wiring, s: Stored, rs: seq<Request>)
    requires forall r :: r in rs ==> IsCreate(r)
    ensures LegalRun(w, s, rs) <==> Creates(w, s, rs)
    decreases |rs|
  {
    if rs == [] || !Legal(w, s, rs[0]) {
    } else {
      var s', rest := Step(w, s, rs[0]), rs[1..];
      CreatesAreLegal(w, s', rest);
      forall r | r in rest ensures Legal(w, s', r) <==> Legal(w, s, r) && Compatible(w, rs[0], r) {
        CompatibleMeansLegalAfter(w, s, rs[0], r);
      }
      if Creates(w, s', rest) {
        forall i, j | 0 <= i < j < |rs| ensures Compatible(w, rs[i], rs[j]) {
          assert rs[j] == rest[j - 1];
          assert rest[j - 1] in rest;
          if i > 0 { assert rs[i] == rest[i - 1]; }
        }
        forall r | r in rs ensures Legal(w, s, r) { assert r == rs[0] || r in rest; }
      }
      if Creates(w, s, rs) {
        forall r | r in rest ensures Legal(w, s', r) {
          var j :| 0 <= j < |rest| && rest[j] == r;
          assert rs[j + 1] == r;
        }
        forall i, j | 0 <= i < j < |rest| ensures Compatible(w, rest[i], rest[j]) {
          assert Compatible(w, rs[i + 1], rs[j + 1]);
        }
      }
    }
  }

  lemma CompatibleMeansLegalAfter(w: Wiring, s: Stored, r: Request, r': Request)
    requires IsCreate(r) && IsCreate(r') && Legal(w, s, r)
    ensures Legal(w, Step(w, s, r), r') <==> Legal(w, s, r') && Compatible(w, r, r')
  {
    if r.CreatePort? && r'.CreatePort? {
      var v := VfInfo(w.vfOf[r.portName], r.mac);
      assert v in Step(w, s, r).vfs;
    }
  }

  ghost predicate Stores(w: Wiring, r: Request, v: VfInfo) {
    r.CreatePort? && r.portName in w.vfOf && v == VfInfo(w.vfOf[r.portName], r.mac)
  }

  ghost predicate Activates(w: Wiring, r: Request, nf: Option<NfPair>)
    requires r.CreateNf?
  {
    KnownPair(w, r.input, r.output) && nf == Some(NfPair(w.deviceStore[r.input], w.deviceStore[r.output]))
  }

  /** A run of creates stores the VFs it names and the one network function it names. */
  lemma {:induction false} CreatesStore(w: Wiring, s: Stored, rs: seq<Request>)
    requires LegalRun(w, s, rs) && forall r :: r in rs ==> IsCreate(r)
    ensures var s' := Run(w, s, rs);
      && (forall v :: v in s'.vfs <==> v in s.vfs || exists r :: r in rs && Stores(w, r, v))
      && (forall r :: r in rs && r.CreateNf? ==> Activates(w, r, s'.nf))
      && ((forall r :: r in rs ==> r.CreatePort?) ==> s'.nf == s.nf)
    decreases |rs|
  {
    if rs == [] {
    } else {
      var s1, rest := Step(w, s, rs[0]), rs[1..];
      CreatesStore(w, s1, rest);
      CreatesAreLegal(w, s, rs);
      forall r ensures r in rs <==> r == rs[0] || r in rest {}
      forall v ensures v in Run(w, s, rs).vfs <==> v in s.vfs || exists r :: r in rs && Stores(w, r, v) {
        assert v in s1.vfs <==> v in s.vfs || Stores(w, rs[0], v);
        assert rs[0] in rs;
        if r :| r in rest && Stores(w, r, v) { assert r in rs; }
      }
      if rs[0].CreateNf? {
        forall r | r in rest ensures r.CreatePort? {
          var j :| 0 <= j < |rest| && rest[j] == r;
          assert Compatible(w, rs[0], rs[j + 1]);
        }
      }
    }
  }

  lemma RepeatIsCounted<T>(xs: seq<T>, i: nat, j: nat)
    requires i < j < |xs| && xs[i] == xs[j]
    ensures multiset(xs)[xs[i]] >= 2
  {
    assert xs == xs[..j] + xs[j..];
    assert xs[i] in xs[..j] && xs[j..][0] == xs[j];
  }

  lemma CountedIsRepeat<T>(xs: seq<T>, x: T)
    requires multiset(xs)[x] >= 2
    ensures exists i, j :: 0 <= i < j < |xs| && xs[i] == x && xs[j] == x
  {
    var i :| 0 <= i < |xs| && xs[i] == x;
    assert xs == xs[..i] + [x] + xs[i + 1..];
    if x in xs[i + 1..] {
      var k :| 0 <= k < |xs[i + 1..]| && xs[i + 1..][k] == x;
      assert xs[i + 1 + k] == x;
    } else {
      assert x in xs[..i];
      var k :| 0 <= k < i && xs[..i][k] == x;
      assert xs[k] == x;
    }
  }

  lemma CreatesInAnyOrder(w: Wiring, s: Stored, p: seq<Request>, q: seq<Request>)
    requires Creates(w, s, p) && multiset(p) == multiset(q)
    ensures Creates(w, s, q)
  {
    forall r ensures r in q <==> r in p {
      assert r in multiset(q) <==> r in multiset(p);
    }
    forall i, j | 0 <= i < j < |q| ensures Compatible(w, q[i], q[j]) {
      if q[i] == q[j] {
        RepeatIsCounted(q, i, j);
        CountedIsRepeat(p, q[i]);
      } else {
        var i' :| 0 <= i' < |p| && p[i'] == q[i];
        var j' :| 0 <= j' < |p| && p[j'] == q[j];
      }
    }
  }

  /** Any interleaving of the same creates is served, stores the same and leaves the same flows. */
  lemma OrderIsIrrelevant(w: Wiring, s: Stored, p: seq<Request>, q: seq<Request>, t: Table, u: Table)
    requires LegalRun(w, s, p) && (forall r :: r in p ==> IsCreate(r)) && multiset(p) == multiset(q)
    ensures LegalRun(w, s, q) && Run(w, s, p) == Run(w, s, q)
    ensures var s' := Run(w, s, p);
      Realises(t, w.learning, s'.vfs, s'.nf, w.rpm) && Realises(u, w.learning, Run(w, s, q).vfs, Run(w, s, q).nf, w.rpm)
      ==> t == u
  {
    forall r ensures r in q <==> r in p {
      assert r in multiset(q) <==> r in multiset(p);
    }
    CreatesAreLegal(w, s, p);
    CreatesInAnyOrder(w, s, p, q);
    CreatesAreLegal(w, s, q);
    CreatesStore(w, s, p);
    CreatesStore(w, s, q);
    var s1, s2 := Run(w, s, p), Run(w, s, q);
    assert s1.vfs == s2.vfs;
    assert s1.nf == s2.nf by {
      if exists r :: r in p && r.CreateNf? {
        var r :| r in p && r.CreateNf?;
      }
    }
    if Realises(t, w.learning, s1.vfs, s1.nf, w.rpm) && Realises(u, w.learning, s1.vfs, s1.nf, w.rpm) {
      TableIsDetermined(t, u, w.learning, s1.vfs, s1.nf, w.rpm);
    }
  }

  /** Creating and deleting a network function leaves the flows and ports it found. */
  method NfRoundTrip(vsp: Vsp, input: string, output: string) returns (done: bool)
    requires vsp.InSync() && !vsp.isNF && KnownPair(vsp.w, input, output)
    modifies vsp, vsp.bridge, vsp.bridge.faults
    ensures done ==> vsp.bridge.flows == old(vsp.bridge.flows) && vsp.bridge.ports == old(vsp.bridge.ports)
    ensures old(vsp.bridge.faults.script) == [] ==> done
  {
    var rs := [CreateNf(input, output), DeleteNf(input, output)];
    assert rs[1..] == [DeleteNf(input, output)] && rs[1..][1..] == [];
    ghost var s := StoredIn(vsp);
    assert Run(vsp.w, s, rs) == Run(vsp.w, Step(vsp.w, s, rs[0]), rs[1..]) == s;
    var served := Serve(vsp, rs);
    done := served == 2;
    if done {
      TableIsDetermined(vsp.bridge.flows, old(vsp.bridge.flows),
        vsp.w.learning, Vfs(vsp.networkStore), None, vsp.w.rpm);
    }
  }
}
