/** The ServiceFunctionChain controller: pods are created, relabelled, or deleted and recreated after
    a requeue, in the arbitrary order of Go's map iteration. */
module Sfc {
  import opened Common
  import opened GoMaps
  import opened Strings

  const SFC_LABEL: string := "dpu.config.openshift.io/sfc"
  const FUNCTION_LABEL: string := "dpu.config.openshift.io/network-function"
  const HASH_KEY: string := "dpu.config.openshift.io/pod-spec-hash"
  const NETWORKS_KEY: string := "k8s.v1.cni.cncf.io/networks"
  const NODE_SIDE_KEY: string := "dpu.config.openshift.io/dpuside"
  const DPU_NAD: string := "dpunfcni-conf"
  const HOST_NAD: string := "default-sriov-net"
  const DPU_RESOURCE: string := "openshift.io/dpu"

  datatype PodKey = PodKey(namespace: string, name: string)

  /** The fields of the pod spec that differ between pods of this controller. */
  datatype PodSpec = PodSpec(
    nodeSelector: Strs, containerName: string, image: string, resourceName: string, requests: int, limits: int)

  datatype Pod = Pod(labels: Strs, annotations: Strs, spec: PodSpec)

  type Pods = map<PodKey, Pod>

  datatype DpuResources = DpuResources(requests: int, limits: int)

  datatype NetworkFunction = NetworkFunction(
    name: string, image: string, networks: seq<string>, dpuResources: Option<DpuResources>)

  datatype Chain = Chain(namespace: string, name: string, nodeSelector: Strs, functions: seq<NetworkFunction>)

  /** SHA-256 of the marshalled spec and network annotation, in hex. */
  type Hash = (PodSpec, string) -> string

  ghost predicate GoodHash(hash: Hash) {
    && (forall spec, networks :: hash(spec, networks) != "")
    && forall s1, n1, s2, n2 :: hash(s1, n1) == hash(s2, n2) ==> s1 == s2 && n1 == n2
  }

  function DefaultNetworks(nodeSelector: Strs): seq<string> {
    var side := ToLower(Lookup(nodeSelector, NODE_SIDE_KEY));
    if side == "dpu" then [DPU_NAD]
    else if side == "dpu-host" || side == "host" then [HOST_NAD]
    else if ToLower(Lookup(nodeSelector, "dpu")) == "true" then [DPU_NAD]
    else [HOST_NAD]
  }

  /** The resource of the operator's config; `None` when that could not be read. */
  function ResourceName(cfg: Option<string>): string {
    if cfg.None? || cfg.value == "" then DPU_RESOURCE else cfg.value
  }

  function PodName(chain: Chain, nf: NetworkFunction): string {
    chain.name + "-" + nf.name
  }

  function NetworkFunctionPod(chain: Chain, nf: NetworkFunction, resourceName: string): Pod {
    var networks := if nf.networks == [] then DefaultNetworks(chain.nodeSelector) else nf.networks;
    var asked := if nf.dpuResources.Some? then nf.dpuResources.value else DpuResources(0, 0);
    var requests := if asked.requests > 0 then asked.requests else 2;
    var limits := if asked.limits > 0 then asked.limits else 2;
    Pod(
      map[SFC_LABEL := chain.name, FUNCTION_LABEL := nf.name],
      map[NETWORKS_KEY := Join(networks, ", ")],
      PodSpec(chain.nodeSelector, PodName(chain, nf), nf.image, resourceName, requests, limits))
  }

  function WithHash(pod: Pod, hash: Hash): Pod {
    pod.(annotations := pod.annotations[HASH_KEY := hash(pod.spec, Lookup(pod.annotations, NETWORKS_KEY))])
  }

  /** Desired pods by name; of functions with one name the last counts. */
  function DesiredPods(chain: Chain, functions: seq<NetworkFunction>, resourceName: string, hash: Hash)
    : map<string, Pod> {
    if functions == [] then map[]
    else
      var nf := functions[|functions| - 1];
      DesiredPods(chain, functions[..|functions| - 1], resourceName, hash)
        [PodName(chain, nf) := WithHash(NetworkFunctionPod(chain, nf, resourceName), hash)]
  }

  /** One pod per function name, each with its own hash and the label of its chain. */
  ghost predicate AllFit(chain: Chain, functions: seq<NetworkFunction>, desired: map<string, Pod>, hash: Hash) {
    && (forall n :: n in desired ==> FitsChain(chain, desired[n], hash))
    && (forall n :: n in desired <==> exists nf :: nf in functions && PodName(chain, nf) == n)
  }

  lemma {:induction false} DesiredPodsFit(
    chain: Chain, functions: seq<NetworkFunction>, resourceName: string, hash: Hash)
    ensures AllFit(chain, functions, DesiredPods(chain, functions, resourceName, hash), hash)
  {
    if functions == [] {
    } else {
      var init, nf := functions[..|functions| - 1], functions[|functions| - 1];
      DesiredPodsFit(chain, init, resourceName, hash);
      assert functions == init + [nf];
      PodFits(chain, nf, resourceName, hash);
    }
  }

  ghost predicate LastOfName(functions: seq<NetworkFunction>, i: nat) {
    i < |functions| && forall j :: i < j < |functions| ==> functions[j].name != functions[i].name
  }

  /** Of functions with one name the last one gives the pod. */
  lemma {:induction false} LastFunctionCounts(
    chain: Chain, functions: seq<NetworkFunction>, resourceName: string, hash: Hash, i: nat)
    requires LastOfName(functions, i)
    ensures var n := PodName(chain, functions[i]);
      var desired := DesiredPods(chain, functions, resourceName, hash);
      n in desired && desired[n] == WithHash(NetworkFunctionPod(chain, functions[i], resourceName), hash)
  {
    var last := |functions| - 1;
    if i == last {
    } else {
      LastFunctionCounts(chain, functions[..last], resourceName, hash, i);
      SamePrefix(chain.name + "-", functions[i].name, functions[last].name);
    }
  }

  /** In any letter case: the DPU side is named, or none of the sides and a DPU is asked for. */
  ghost predicate SelectsDpuSide(nodeSelector: Strs) {
    var side := Lookup(nodeSelector, "dpu.config.openshift.io/dpuside");
    || SameIgnoringCase(side, "dpu")
    || (!SameIgnoringCase(side, "dpu-host") && !SameIgnoringCase(side, "host")
        && SameIgnoringCase(Lookup(nodeSelector, "dpu"), "true"))
  }

  lemma DefaultIsTheSides(nodeSelector: Strs)
    ensures DefaultNetworks(nodeSelector) ==
      [if SelectsDpuSide(nodeSelector) then "dpunfcni-conf" else "default-sriov-net"]
  {
    var side := Lookup(nodeSelector, NODE_SIDE_KEY);
    LowerOfLower(side, "dpu");
    LowerOfLower(side, "dpu-host");
    LowerOfLower(side, "host");
    LowerOfLower(Lookup(nodeSelector, "dpu"), "true");
  }

  /** Splitting the text at its commas gives the networks, each but the first after a space. */
  ghost predicate ListsNetworks(text: string, networks: seq<string>) {
    var parts := Split(text, ',');
    && |parts| == |networks| && parts[0] == networks[0]
    && forall i :: 0 < i < |parts| ==> parts[i] == " " + networks[i]
  }

  ghost predicate NetworksFit(chain: Chain, nf: NetworkFunction, text: string) {
    && (nf.networks == [] ==>
          text == if SelectsDpuSide(chain.nodeSelector) then "dpunfcni-conf" else "default-sriov-net")
    && (nf.networks != [] && (forall network :: network in nf.networks ==> ',' !in network) ==>
          ListsNetworks(text, nf.networks))
  }

  /** The spec a function asks for; a count that is not positive counts as 2. */
  ghost predicate SpecFits(chain: Chain, nf: NetworkFunction, cfg: Option<string>, spec: PodSpec) {
    var asked := nf.dpuResources;
    && spec.nodeSelector == chain.nodeSelector
    && spec.containerName == chain.name + "-" + nf.name && spec.image == nf.image
    && spec.resourceName == (if cfg.Some? && cfg.value != "" then cfg.value else "openshift.io/dpu")
    && spec.requests == (if asked.Some? && asked.value.requests > 0 then asked.value.requests else 2)
    && spec.limits == (if asked.Some? && asked.value.limits > 0 then asked.value.limits else 2)
  }

  ghost predicate MetadataFits(chain: Chain, nf: NetworkFunction, pod: Pod) {
    && Lookup(pod.labels, "dpu.config.openshift.io/sfc") == chain.name
    && Lookup(pod.labels, "dpu.config.openshift.io/network-function") == nf.name
    && NetworksFit(chain, nf, Lookup(pod.annotations, "k8s.v1.cni.cncf.io/networks"))
  }

  /** Each function that is the last one of its name has a pod that fits it. */
  ghost predicate FunctionsHavePods(chain: Chain, cfg: Option<string>, desired: map<string, Pod>) {
    forall i: nat :: LastOfName(chain.functions, i) ==>
      var nf := chain.functions[i];
      var n := chain.name + "-" + nf.name;
      n in desired && MetadataFits(chain, nf, desired[n]) && SpecFits(chain, nf, cfg, desired[n].spec)
  }

  lemma FunctionPodFits(chain: Chain, nf: NetworkFunction, cfg: Option<string>)
    ensures var pod := NetworkFunctionPod(chain, nf, ResourceName(cfg));
      SpecFits(chain, nf, cfg, pod.spec) && MetadataFits(chain, nf, pod)
  {
    assert |SFC_LABEL| != |FUNCTION_LABEL|;
    DefaultIsTheSides(chain.nodeSelector);
    if nf.networks != [] && forall network :: network in nf.networks ==> ',' !in network {
      SplitOfSpaced(nf.networks, ',');
    }
  }

  lemma PodFits(chain: Chain, nf: NetworkFunction, resourceName: string, hash: Hash)
    ensures FitsChain(chain, WithHash(NetworkFunctionPod(chain, nf, resourceName), hash), hash)
  {
    assert |SFC_LABEL| != |FUNCTION_LABEL|;
    assert |NETWORKS_KEY| != |HASH_KEY|;
  }

  ghost predicate FitsChain(chain: Chain, pod: Pod, hash: Hash) {
    && pod.labels.Keys == {SFC_LABEL, FUNCTION_LABEL} && pod.labels[SFC_LABEL] == chain.name
    && pod.annotations.Keys == {NETWORKS_KEY, HASH_KEY}
    && pod.annotations[HASH_KEY] == hash(pod.spec, pod.annotations[NETWORKS_KEY])
  }

  /* ----- the state every reconcile heads for ----- */

  datatype Goal = Goal(namespace: string, sfc: string, desired: map<string, Pod>)

  ghost function GoalOf(chain: Chain, cfg: Option<string>, hash: Hash): Goal {
    Goal(chain.namespace, chain.name, DesiredPods(chain, chain.functions, ResourceName(cfg), hash))
  }

  predicate Labelled(pod: Pod, sfc: string) {
    SFC_LABEL in pod.labels && pod.labels[SFC_LABEL] == sfc
  }

  predicate SameHash(existing: Pod, desired: Pod) {
    Lookup(existing.annotations, HASH_KEY) == Lookup(desired.annotations, HASH_KEY)
  }

  ghost function Merge(existing: Pod, desired: Pod): Pod {
    Pod(Overlay(existing.labels, desired.labels), Overlay(existing.annotations, desired.annotations), existing.spec)
  }

  /** What becomes of each pod, read off the pods of any moment on the way. */
  ghost function Outcome(g: Goal, pods: Pods, k: PodKey): Option<Pod> {
    var now := Find(pods, k);
    if k.namespace != g.namespace then now
    else if k.name in g.desired then
      if now.Some? && SameHash(now.value, g.desired[k.name]) then Some(Merge(now.value, g.desired[k.name]))
      else Some(g.desired[k.name])
    else if now.Some? && Labelled(now.value, g.sfc) then None
    else now
  }

  ghost predicate Reached(g: Goal, before: Pods, after: Pods) {
    forall k :: Find(after, k) == Outcome(g, before, k)
  }

  ghost predicate SameOutcome(g: Goal, p: Pods, q: Pods) {
    forall k :: Outcome(g, p, k) == Outcome(g, q, k)
  }

  ghost predicate Settled(g: Goal, pods: Pods) {
    Reached(g, pods, pods)
  }

  /** Desired pods whose present incarnation has another hash and must be recreated. */
  ghost function WrongHash(g: Goal, pods: Pods): set<string> {
    set n | n in g.desired && PodKey(g.namespace, n) in pods && !SameHash(pods[PodKey(g.namespace, n)], g.desired[n])
  }

  /** A pod that has got its outcome keeps it. */
  lemma OutcomeTwice(g: Goal, p: Pods, q: Pods, k: PodKey)
    requires Find(q, k) == Outcome(g, p, k)
    ensures Outcome(g, q, k) == Outcome(g, p, k)
  {
    if k.namespace == g.namespace && k.name in g.desired {
      var d := g.desired[k.name];
      OverlayAgrees(d.labels, d.labels);
      OverlayAgrees(d.annotations, d.annotations);
      if k in p && SameHash(p[k], d) {
        OverlayAgrees(p[k].labels, d.labels);
        OverlayAgrees(p[k].annotations, d.annotations);
      }
    }
  }

  /** Every state a reconcile can stop in: each pod is as before, has its outcome, or is a wrong-hash
      pod that was deleted. */
  ghost predicate OnTheWay(g: Goal, p: Pods, q: Pods) {
    forall k ::
      || Find(q, k) == Find(p, k)
      || Find(q, k) == Outcome(g, p, k)
      || (k.namespace == g.namespace && k.name in WrongHash(g, p) && Find(q, k) == None)
  }

  /** Stopping anywhere, by error or requeue, does not change where reconciling ends. */
  lemma OnTheWayKeepsOutcome(g: Goal, p: Pods, q: Pods)
    requires OnTheWay(g, p, q)
    ensures SameOutcome(g, p, q)
  {
    forall k ensures Outcome(g, p, k) == Outcome(g, q, k) {
      if Find(q, k) == Outcome(g, p, k) { OutcomeTwice(g, p, q, k); }
    }
  }

  /* ----- the controller ----- */

  /** The API server. Deletes take effect at once; any call may fail without effect. */
  class Api {
    var pods: Pods
    var writes: nat
    const faults: Faults

    constructor (pods: Pods, faults: Faults)
      ensures this.pods == pods && this.faults == faults && writes == 0
    {
      this.pods, this.faults, writes := pods, faults, 0;
    }

    method ListLabelled(namespace: string, sfc: string) returns (ok: bool, found: set<PodKey>)
      modifies faults
      ensures ok ==> found == set k | k in pods && k.namespace == namespace && Labelled(pods[k], sfc)
      ensures ok == Works(old(faults.script)) && faults.script == Rest(old(faults.script))
    {
      ok := faults.Next();
      found := set k | k in pods && k.namespace == namespace && Labelled(pods[k], sfc);
    }

    method Get(k: PodKey) returns (ok: bool, pod: Option<Pod>)
      modifies faults
      ensures ok ==> pod == Find(pods, k)
      ensures ok == Works(old(faults.script)) && faults.script == Rest(old(faults.script))
    {
      ok := faults.Next();
      pod := Find(pods, k);
    }

    method Put(k: PodKey, pod: Pod) returns (ok: bool)
      modifies this`pods, this`writes, faults
      ensures pods == if ok then old(pods)[k := pod] else old(pods)
      ensures writes == old(writes) + if ok then 1 else 0
      ensures ok == Works(old(faults.script)) && faults.script == Rest(old(faults.script))
    {
      ok := faults.Next();
      if ok { pods, writes := pods[k := pod], writes + 1; }
    }

    /** A pod that is gone already is not an error to the callers. */
    method Delete(k: PodKey) returns (ok: bool)
      modifies this`pods, this`writes, faults
      ensures pods == if ok then old(pods) - {k} else old(pods)
      ensures writes == old(writes) + if ok then 1 else 0
      ensures ok == Works(old(faults.script)) && faults.script == Rest(old(faults.script))
    {
      ok := faults.Next();
      if ok { pods, writes := pods - {k}, writes + 1; }
    }
  }

  ghost predicate IsDesired(g: Goal, k: PodKey) {
    k.namespace == g.namespace && k.name in g.desired
  }

  datatype Result = Done | Requeue | Error

  ghost predicate AllHashed(desired: map<string, Pod>) {
    forall n :: n in desired ==> Lookup(desired[n].annotations, HASH_KEY) != ""
  }

  class Reconciler {
    const api: Api
    const hash: Hash

    constructor (api: Api, hash: Hash)
      ensures this.api == api && this.hash == hash
    {
      this.api, this.hash := api, hash;
    }

    method BuildDesired(chain: Chain, cfg: Option<string>) returns (desired: map<string, Pod>)
      ensures desired == DesiredPods(chain, chain.functions, ResourceName(cfg), hash)
      ensures FunctionsHavePods(chain, cfg, desired)
    {
      var resourceName := ResourceName(cfg);
      desired := map[];
      for i := 0 to |chain.functions|
        invariant desired == DesiredPods(chain, chain.functions[..i], resourceName, hash)
      {
        var pod := WithHash(NetworkFunctionPod(chain, chain.functions[i], resourceName), hash);
        assert chain.functions[..i + 1][..i] == chain.functions[..i];
        desired := desired[PodName(chain, chain.functions[i]) := pod];
      }
      assert chain.functions[..|chain.functions|] == chain.functions;
      forall i: nat | LastOfName(chain.functions, i)
        ensures var nf := chain.functions[i];
          var n := PodName(chain, nf);
          n in desired && MetadataFits(chain, nf, desired[n]) && SpecFits(chain, nf, cfg, desired[n].spec)
      {
        LastFunctionCounts(chain, chain.functions, resourceName, hash, i);
        FunctionPodFits(chain, chain.functions[i], cfg);
      }
    }

    method ReconcilePod(k: PodKey, desired: Pod) returns (res: Result)
      modifies api`pods, api`writes, api.faults
      ensures forall other :: other != k ==> Find(api.pods, other) == old(Find(api.pods, other))
      ensures var was := old(Find(api.pods, k));
        match res
        case Done =>
          && Find(api.pods, k) == (if was.Some? then Some(Merge(was.value, desired)) else Some(desired))
          && (was.Some? ==> SameHash(was.value, desired) && KeptOrRecreated(desired, was.value, api.pods[k]))
        case Requeue => was.Some? && !SameHash(was.value, desired) && k !in api.pods
        case Error => api.pods == old(api.pods)
      ensures api.writes == old(api.writes) <==> api.pods == old(api.pods)
      ensures old(api.faults.script) == [] && Lookup(desired.annotations, HASH_KEY) != "" ==>
        res != Error && api.faults.script == []
    {
      var ok, found := api.Get(k);
      if !ok { return Error; }
      if found.None? {
        ok := api.Put(k, desired);
        return if ok then Done else Error;
      }
      var existing := found.value;
      var desiredHash := Lookup(desired.annotations, HASH_KEY);
      if desiredHash == "" { return Error; }
      if Lookup(existing.annotations, HASH_KEY) != desiredHash {
        ok := api.Delete(k);
        return if ok then Requeue else Error;
      }
      var labels, updatedLabels := MergeInto(existing.labels, desired.labels);
      var annotations, updatedAnnotations := MergeInto(existing.annotations, desired.annotations);
      OverlayAgrees(existing.labels, desired.labels);
      OverlayAgrees(existing.annotations, desired.annotations);
      if updatedLabels || updatedAnnotations {
        ok := api.Put(k, Pod(labels, annotations, existing.spec));
        return if ok then Done else Error;
      }
      return Done;
    }

    method DeleteStale(ghost g: Goal, namespace: string, sfc: string, desired: map<string, Pod>) returns (ok: bool)
      requires g == Goal(namespace, sfc, desired)
      modifies api`pods, api`writes, api.faults
      ensures OnTheWay(g, old(api.pods), api.pods)
      ensures WrongHash(g, api.pods) == WrongHash(g, old(api.pods))
      ensures ok ==> forall k ::
        Find(api.pods, k) == if IsDesired(g, k) then old(Find(api.pods, k)) else Outcome(g, old(api.pods), k)
      ensures Settled(g, old(api.pods)) ==> api.pods == old(api.pods) && api.writes == old(api.writes)
      ensures old(api.faults.script) == [] ==> ok && api.faults.script == []
    {
      ghost var p := api.pods;
      var todo;
      ok, todo := api.ListLabelled(namespace, sfc);
      if !ok { return; }
      while todo != {}
        invariant forall k :: k in todo ==> k.namespace == namespace && k in p && Labelled(p[k], sfc)
        invariant forall k: PodKey ::
          k.namespace == namespace && k in p && Labelled(p[k], sfc) && k !in todo && k.name !in desired ==>
          k !in api.pods
        invariant forall k :: k in todo || IsDesired(g, k) ==> Find(api.pods, k) == Find(p, k)
        invariant forall k :: Find(api.pods, k) == Find(p, k) || Find(api.pods, k) == Outcome(g, p, k)
        invariant Settled(g, p) ==> api.pods == p && api.writes == old(api.writes)
        invariant old(api.faults.script) == [] ==> api.faults.script == []
        decreases todo
      {
        var k :| k in todo;
        todo := todo - {k};
        if k.name !in desired {
          assert Outcome(g, p, k) == None;
          ok := api.Delete(k);
          if !ok {
            OnlyStaleGone(g, p, api.pods);
            return;
          }
        }
      }
      OnlyStaleGone(g, p, api.pods);
      ok := true;
    }

    /** The second half of a reconcile, from pods `p` among which the stale ones are gone already. */
    method ReconcilePods(ghost g: Goal, ghost p: Pods, namespace: string, desired: map<string, Pod>)
      returns (res: Result)
      requires g.namespace == namespace && g.desired == desired
      requires forall k :: Find(api.pods, k) == if IsDesired(g, k) then Find(p, k) else Outcome(g, p, k)
      modifies api`pods, api`writes, api.faults
      ensures OnTheWay(g, p, api.pods)
      ensures res == Done ==> Reached(g, p, api.pods) && WrongHash(g, p) == {}
      ensures res == Requeue ==> exists n :: n in WrongHash(g, p) && WrongHash(g, api.pods) == WrongHash(g, p) - {n}
      ensures Settled(g, p) && old(api.pods) == p ==>
        api.pods == p && api.writes == old(api.writes) && res != Requeue
      ensures old(api.faults.script) == [] && AllHashed(desired) ==>
        res != Error && api.faults.script == []
    {
      var todo := desired.Keys;
      while todo != {}
        invariant todo <= desired.Keys
        invariant forall k :: Find(api.pods, k) == Halfway(g, p, todo, k)
        invariant WrongHash(g, p) <= todo
        invariant Settled(g, p) && old(api.pods) == p ==> api.pods == p && api.writes == old(api.writes)
        invariant old(api.faults.script) == [] && AllHashed(desired) ==>
          api.faults.script == []
        decreases todo
      {
        var n :| n in todo;
        ghost var q := api.pods;
        var k := PodKey(namespace, n);
        assert Find(q, k) == Halfway(g, p, todo, k) == Find(p, k);
        res := ReconcilePod(k, desired[n]);
        if res == Error { return; }
        if res == Requeue {
          RequeueProgress(g, p, q, api.pods, todo, n);
          return;
        }
        todo := todo - {n};
        if Settled(g, p) && q == p {
          forall other ensures Find(api.pods, other) == Find(p, other) {
            assert Find(p, other) == Outcome(g, p, other);
          }
          SameMap(api.pods, p);
        }
      }
      res := Done;
    }

    /** One reconcile, for any order in which the maps are walked. However it stops, the outcome is
        the one the cluster was heading for; when it is done every pod has its outcome; when it asks
        to be called again, one wrong-hash pod is gone. */
    method Reconcile(chain: Chain, cfg: Option<string>) returns (res: Result)
      modifies api`pods, api`writes, api.faults
      ensures var g := GoalOf(chain, cfg, hash);
        && SameOutcome(g, old(api.pods), api.pods)
        && (res == Done ==> Reached(g, old(api.pods), api.pods) && WrongHash(g, old(api.pods)) == {})
        && (res == Requeue ==> |WrongHash(g, api.pods)| == |WrongHash(g, old(api.pods))| - 1)
        && (Settled(g, old(api.pods)) ==> api.pods == old(api.pods) && api.writes == old(api.writes) && res != Requeue)
      ensures old(api.faults.script) == [] && GoodHash(hash) ==> res != Error && api.faults.script == []
    {
      ghost var p := api.pods;
      var desired := BuildDesired(chain, cfg);
      ghost var g := Goal(chain.namespace, chain.name, desired);
      DesiredPodsFit(chain, chain.functions, ResourceName(cfg), hash);
      var ok := DeleteStale(g, chain.namespace, chain.name, desired);
      if ok {
        res := ReconcilePods(g, p, chain.namespace, desired);
      } else {
        res := Error;
      }
      OnTheWayKeepsOutcome(g, p, api.pods);
    }

    /** Requeues are followed until none is asked for. With a working API server this takes at most
        one round more than there are wrong-hash pods. */
    method Converge(chain: Chain, cfg: Option<string>) returns (rounds: nat)
      requires api.faults.script == [] && GoodHash(hash)
      modifies api`pods, api`writes, api.faults
      ensures var g := GoalOf(chain, cfg, hash);
        && rounds <= |WrongHash(g, old(api.pods))| + 1
        && Reached(g, old(api.pods), api.pods)
        && Settled(g, api.pods)
    {
      ghost var p, g := api.pods, GoalOf(chain, cfg, hash);
      rounds := 0;
      var res := Requeue;
      while res == Requeue
        invariant res != Error && api.faults.script == []
        invariant SameOutcome(g, p, api.pods)
        invariant res == Requeue ==> rounds + |WrongHash(g, api.pods)| == |WrongHash(g, p)|
        invariant res == Done ==> rounds <= |WrongHash(g, p)| + 1 && Reached(g, p, api.pods)
        decreases res == Requeue, |WrongHash(g, api.pods)|
      {
        res := Reconcile(chain, cfg);
        rounds := rounds + 1;
      }
      OutcomeIsStable(g, p, api.pods);
    }
  }

  lemma OnlyStaleGone(g: Goal, p: Pods, q: Pods)
    requires forall k :: Find(q, k) == Find(p, k) || Find(q, k) == Outcome(g, p, k)
    requires forall k :: IsDesired(g, k) ==> Find(q, k) == Find(p, k)
    ensures OnTheWay(g, p, q) && WrongHash(g, q) == WrongHash(g, p)
  {
    forall n | n in g.desired ensures n in WrongHash(g, q) <==> n in WrongHash(g, p) {
      var k := PodKey(g.namespace, n);
      assert IsDesired(g, k) && Find(q, k) == Find(p, k);
    }
  }

  /** The pods when those named in `todo` are still to be reconciled. */
  ghost function Halfway(g: Goal, p: Pods, todo: set<string>, k: PodKey): Option<Pod> {
    if k.namespace == g.namespace && k.name in todo then Find(p, k) else Outcome(g, p, k)
  }

  lemma RequeueProgress(g: Goal, p: Pods, q: Pods, q': Pods, todo: set<string>, n: string)
    requires todo <= g.desired.Keys && n in todo && WrongHash(g, p) <= todo
    requires forall k :: Find(q, k) == Halfway(g, p, todo, k)
    requires n in WrongHash(g, p) && PodKey(g.namespace, n) !in q'
    requires forall k :: k != PodKey(g.namespace, n) ==> Find(q', k) == Find(q, k)
    ensures WrongHash(g, q') == WrongHash(g, p) - {n}
    ensures OnTheWay(g, p, q')
  {
    forall m | m in g.desired ensures m in WrongHash(g, q') <==> m in WrongHash(g, p) && m != n {
      var k := PodKey(g.namespace, m);
      assert Find(q, k) == Halfway(g, p, todo, k);
    }
    forall k
      ensures Find(q', k) == Find(p, k) || Find(q', k) == Outcome(g, p, k)
        || (k.namespace == g.namespace && k.name in WrongHash(g, p) && Find(q', k) == None)
    {
      assert Find(q, k) == Halfway(g, p, todo, k);
    }
  }

  /* ----- the end state ----- */

  lemma OutcomeIsStable(g: Goal, p: Pods, q: Pods)
    requires Reached(g, p, q)
    ensures Settled(g, q)
  {
    forall k ensures Find(q, k) == Outcome(g, q, k) {
      assert Find(q, k) == Outcome(g, p, k);
      OutcomeTwice(g, p, q, k);
    }
  }

  /** No choice of orders shows in the end state. */
  lemma EndStateIsUnique(g: Goal, p: Pods, q: Pods, q': Pods)
    requires Reached(g, p, q) && Reached(g, p, q')
    ensures q == q'
  {
    forall k ensures Find(q, k) == Find(q', k) {
      assert Find(q, k) == Outcome(g, p, k);
    }
    SameMap(q, q');
  }

  /** The pods labelled for the chain are the desired ones, with the desired labels and annotations,
      the hash among them. */
  ghost predicate ExactlyDesired(g: Goal, q: Pods) {
    forall k: PodKey :: k.namespace == g.namespace ==> DesiredAt(g, q, k)
  }

  ghost predicate DesiredAt(g: Goal, q: Pods, k: PodKey) {
    && (k in q && Labelled(q[k], g.sfc) <==> k.name in g.desired)
    && (k.name in g.desired ==>
          Agrees(q[k].labels, g.desired[k.name].labels) && Agrees(q[k].annotations, g.desired[k.name].annotations))
  }

  /** A pod the chain neither wants nor has labelled. */
  ghost predicate Foreign(g: Goal, p: Pods, k: PodKey) {
    k.namespace != g.namespace || (k.name !in g.desired && (k in p ==> !Labelled(p[k], g.sfc)))
  }

  /** A pod whose hash is the desired one keeps its spec and whatever else it is labelled or annotated
      with; one with another hash is replaced. */
  ghost predicate KeptOrRecreated(desired: Pod, was: Pod, now: Pod) {
    if SameHash(was, desired) then
      && now.spec == was.spec
      && KeepsRest(was.labels, desired.labels, now.labels)
      && KeepsRest(was.annotations, desired.annotations, now.annotations)
    else now == desired
  }

  lemma EndState(chain: Chain, cfg: Option<string>, hash: Hash, p: Pods, q: Pods)
    requires chain.name != ""
    requires Reached(GoalOf(chain, cfg, hash), p, q)
    ensures ExactlyDesired(GoalOf(chain, cfg, hash), q)
    ensures forall k :: Foreign(GoalOf(chain, cfg, hash), p, k) ==> Find(q, k) == Find(p, k)
    ensures forall k :: IsDesired(GoalOf(chain, cfg, hash), k) && k in p ==>
      KeptOrRecreated(GoalOf(chain, cfg, hash).desired[k.name], p[k], q[k])
  {
    var g := GoalOf(chain, cfg, hash);
    DesiredPodsFit(chain, chain.functions, ResourceName(cfg), hash);
    forall k: PodKey
      ensures k.namespace == g.namespace ==> DesiredAt(g, q, k)
      ensures Foreign(g, p, k) ==> Find(q, k) == Find(p, k)
      ensures IsDesired(g, k) && k in p ==> KeptOrRecreated(g.desired[k.name], p[k], q[k])
    {
      assert Find(q, k) == Outcome(g, p, k);
      if k.namespace == g.namespace && k.name in g.desired {
        assert FitsChain(chain, g.desired[k.name], hash);
        DesiredPodIsThere(g, p, q, k);
      }
    }
  }

  lemma DesiredPodIsThere(g: Goal, p: Pods, q: Pods, k: PodKey)
    requires g.sfc != "" && k.namespace == g.namespace && k.name in g.desired && Labelled(g.desired[k.name], g.sfc)
    requires Find(q, k) == Outcome(g, p, k)
    ensures DesiredAt(g, q, k) && (k in p ==> KeptOrRecreated(g.desired[k.name], p[k], q[k]))
  {
    var d := g.desired[k.name];
    OverlayAgrees(d.labels, d.labels);
    if k in p {
      OverlayAgrees(p[k].labels, d.labels);
      OverlayAgrees(p[k].annotations, d.annotations);
    }
    assert Lookup(q[k].labels, SFC_LABEL) == d.labels[SFC_LABEL];
  }

  ghost predicate Honest(pod: Pod, hash: Hash) {
    Lookup(pod.annotations, "dpu.config.openshift.io/pod-spec-hash")
    == hash(pod.spec, Lookup(pod.annotations, "k8s.v1.cni.cncf.io/networks"))
  }

  /** If the pods under the chain's names carry the hashes of their own specs, they end up with the
      desired specs and honest again: every change of the chain reaches its pods. */
  lemma EndStateSpecs(chain: Chain, cfg: Option<string>, hash: Hash, p: Pods, q: Pods)
    requires GoodHash(hash) && Reached(GoalOf(chain, cfg, hash), p, q)
    requires forall k :: k in p && IsDesired(GoalOf(chain, cfg, hash), k) ==> Honest(p[k], hash)
    ensures forall k :: IsDesired(GoalOf(chain, cfg, hash), k) ==>
      k in q && q[k].spec == GoalOf(chain, cfg, hash).desired[k.name].spec && Honest(q[k], hash)
  {
    var g := GoalOf(chain, cfg, hash);
    DesiredPodsFit(chain, chain.functions, ResourceName(cfg), hash);
    forall k | IsDesired(g, k) ensures k in q && q[k].spec == g.desired[k.name].spec && Honest(q[k], hash) {
      assert Find(q, k) == Outcome(g, p, k);
      var d := g.desired[k.name];
      assert FitsChain(chain, d, hash);
      if k in p {
        OverlayAgrees(p[k].annotations, d.annotations);
        assert Honest(p[k], hash);
      }
    }
  }

  /** The pod of a function, the last one of its name, when the chain is done. A pod that is new or has
      a new spec has the one the function asks for, and so has any whose hash was that of its spec. */
  lemma EndOfFunction(chain: Chain, cfg: Option<string>, hash: Hash, p: Pods, q: Pods, i: nat)
    requires GoodHash(hash) && chain.name != "" && Reached(GoalOf(chain, cfg, hash), p, q)
    requires LastOfName(chain.functions, i)
    ensures var nf := chain.functions[i];
      var k := PodKey(chain.namespace, chain.name + "-" + nf.name);
      && k in q && MetadataFits(chain, nf, q[k])
      && (k !in p || q[k].spec != p[k].spec || Honest(p[k], hash) ==> SpecFits(chain, nf, cfg, q[k].spec))
      && (SpecFits(chain, nf, cfg, q[k].spec) ==> Honest(q[k], hash))
  {
    var g, nf := GoalOf(chain, cfg, hash), chain.functions[i];
    var k := PodKey(chain.namespace, PodName(chain, nf));
    LastFunctionCounts(chain, chain.functions, ResourceName(cfg), hash, i);
    FunctionPodFits(chain, nf, cfg);
    PodFits(chain, nf, ResourceName(cfg), hash);
    EndState(chain, cfg, hash, p, q);
    assert IsDesired(g, k) && DesiredAt(g, q, k);
    assert Find(q, k) == Outcome(g, p, k);
  }

  /** Two chains can want one pod although their names differ: a dash may belong to either name. */
  lemma SharedPodName(c: Chain, f: NetworkFunction, d: Chain, g: NetworkFunction)
    ensures |c.name| == |d.name| ==>
      (PodName(c, f) == PodName(d, g) <==> c.name == d.name && f.name == g.name)
    ensures |c.name| < |d.name| ==>
      (PodName(c, f) == PodName(d, g) <==>
        exists x :: d.name == c.name + "-" + x && f.name == x + "-" + g.name)
  {
    var s, t := PodName(c, f), PodName(d, g);
    assert s[..|c.name|] == c.name && s[|c.name| + 1..] == f.name;
    assert t[..|d.name|] == d.name && t[|d.name| + 1..] == g.name;
    if |c.name| < |d.name| {
      if s == t {
        var x := d.name[|c.name| + 1..];
        assert s[|c.name|] == '-' && d.name == s[..|d.name|];
        assert d.name == c.name + "-" + x;
        assert f.name == x + "-" + g.name;
      }
      if x :| d.name == c.name + "-" + x && f.name == x + "-" + g.name {
        assert s == c.name + "-" + (x + "-" + g.name) == (c.name + "-" + x) + "-" + g.name == t;
      }
    }
  }

  /** A function name of the one chain and one of the other that make the same pod name. A caller can
      compare the names before the second chain is created. */
  ghost predicate NamesMeet(c: Chain, f: NetworkFunction, d: Chain, g: NetworkFunction) {
    exists x ::
      || (d.name == c.name + "-" + x && f.name == x + "-" + g.name)
      || (c.name == d.name + "-" + x && g.name == x + "-" + f.name)
  }

  ghost predicate ShareAPod(c: Chain, d: Chain) {
    c.namespace == d.namespace && exists f, g :: f in c.functions && g in d.functions && NamesMeet(c, f, d, g)
  }

  lemma NamesMeetIff(c: Chain, f: NetworkFunction, d: Chain, g: NetworkFunction)
    requires c.name != d.name
    ensures NamesMeet(c, f, d, g) <==> PodName(c, f) == PodName(d, g)
  {
    SharedPodName(c, f, d, g);
    SharedPodName(d, g, c, f);
    if PodName(c, f) == PodName(d, g) {
      if |c.name| < |d.name| {
        var x :| d.name == c.name + "-" + x && f.name == x + "-" + g.name;
      } else {
        var x :| c.name == d.name + "-" + x && g.name == x + "-" + f.name;
      }
    }
    if x :| d.name == c.name + "-" + x && f.name == x + "-" + g.name { assert |c.name| < |d.name|; }
    if x :| c.name == d.name + "-" + x && g.name == x + "-" + f.name { assert |d.name| < |c.name|; }
  }

  /** Two chains want no pod in common exactly when none of their names meet. */
  lemma ShareAPodIff(c: Chain, d: Chain, cfg: Option<string>, hash: Hash)
    requires c.namespace == d.namespace && c.name != d.name
    ensures ShareAPod(c, d) <==>
      exists n :: n in GoalOf(c, cfg, hash).desired && n in GoalOf(d, cfg, hash).desired
  {
    var g, h := GoalOf(c, cfg, hash), GoalOf(d, cfg, hash);
    DesiredPodsFit(c, c.functions, ResourceName(cfg), hash);
    DesiredPodsFit(d, d.functions, ResourceName(cfg), hash);
    if ShareAPod(c, d) {
      var e, f :| e in c.functions && f in d.functions && NamesMeet(c, e, d, f);
      NamesMeetIff(c, e, d, f);
      assert PodName(c, e) in g.desired && PodName(c, e) in h.desired;
    }
    if n :| n in g.desired && n in h.desired {
      var e :| e in c.functions && PodName(c, e) == n;
      var f :| f in d.functions && PodName(d, f) == n;
      NamesMeetIff(c, e, d, f);
    }
  }

  ghost function PodsOf(g: Goal): (pods: Pods)
    ensures forall k :: Find(pods, k) == if IsDesired(g, k) then Some(g.desired[k.name]) else None
  {
    map n | n in g.desired :: PodKey(g.namespace, n) := g.desired[n]
  }

  /** The desired pods of a goal among pods that are labelled for others. */
  lemma SettledAmongOthers(g: Goal, p: Pods)
    requires forall k :: IsDesired(g, k) ==> Find(p, k) == Some(g.desired[k.name])
    requires forall k :: k in p && k.namespace == g.namespace && !IsDesired(g, k) ==> !Labelled(p[k], g.sfc)
    ensures Settled(g, p)
  {
    forall k ensures Find(p, k) == Outcome(g, p, k) {
      if IsDesired(g, k) {
        OverlayAgrees(p[k].labels, p[k].labels);
        OverlayAgrees(p[k].annotations, p[k].annotations);
      }
    }
  }

  /** Both chains are done with those pods. */
  ghost predicate BothSettled(c: Chain, d: Chain, cfg: Option<string>, hash: Hash, p: Pods) {
    Settled(GoalOf(c, cfg, hash), p) && Settled(GoalOf(d, cfg, hash), p)
  }

  /** A pod of both chains would have to carry both labels. */
  lemma SharedPodNeverSettles(c: Chain, d: Chain, cfg: Option<string>, hash: Hash, p: Pods)
    requires c.name != "" && d.name != "" && c.name != d.name && ShareAPod(c, d)
    ensures !BothSettled(c, d, cfg, hash, p)
  {
    var g, h := GoalOf(c, cfg, hash), GoalOf(d, cfg, hash);
    ShareAPodIff(c, d, cfg, hash);
    var n :| n in g.desired && n in h.desired;
    var k := PodKey(c.namespace, n);
    if Settled(g, p) {
      EndState(c, cfg, hash, p, p);
      assert DesiredAt(g, p, k);
    }
    if Settled(h, p) {
      EndState(d, cfg, hash, p, p);
      assert DesiredAt(h, p, k);
    }
  }

  /** The pods of both goals. */
  ghost function PodsOfBoth(g: Goal, h: Goal): (pods: Pods)
    ensures forall k :: Find(pods, k) == if IsDesired(h, k) then Some(h.desired[k.name]) else Find(PodsOf(g), k)
  {
    var pods := PodsOf(g) + PodsOf(h);
    assert forall k | IsDesired(h, k) :: Find(PodsOf(h), k) == Some(h.desired[k.name]);
    assert forall k | !IsDesired(h, k) :: Find(PodsOf(h), k) == None;
    pods
  }

  ghost predicate AllLabelled(g: Goal) {
    forall n :: n in g.desired ==> Labelled(g.desired[n], g.sfc)
  }

  lemma ApartSettle(g: Goal, h: Goal)
    requires AllLabelled(g) && AllLabelled(h)
    requires g.namespace == h.namespace ==> g.sfc != h.sfc && forall n :: n in g.desired ==> n !in h.desired
    ensures Settled(g, PodsOfBoth(g, h)) && Settled(h, PodsOfBoth(g, h))
  {
    var p := PodsOfBoth(g, h);
    forall k ensures IsDesired(g, k) ==> Find(p, k) == Some(g.desired[k.name])
      ensures IsDesired(h, k) ==> Find(p, k) == Some(h.desired[k.name])
      ensures k in p ==> IsDesired(g, k) || IsDesired(h, k)
    {
      assert Find(p, k) == if IsDesired(h, k) then Some(h.desired[k.name]) else Find(PodsOf(g), k);
      assert Find(PodsOf(g), k) == if IsDesired(g, k) then Some(g.desired[k.name]) else None;
    }
    SettledAmongOthers(g, p);
    SettledAmongOthers(h, p);
  }

  lemma ChainIsLabelled(c: Chain, cfg: Option<string>, hash: Hash)
    ensures AllLabelled(GoalOf(c, cfg, hash))
  {
    DesiredPodsFit(c, c.functions, ResourceName(cfg), hash);
    forall n | n in GoalOf(c, cfg, hash).desired ensures Labelled(GoalOf(c, cfg, hash).desired[n], c.name) {
      assert FitsChain(c, GoalOf(c, cfg, hash).desired[n], hash);
    }
  }

  /** Two chains can be done at the same time exactly when no names of theirs meet in one namespace,
      whatever the hashes. */
  lemma BothSettleIff(c: Chain, d: Chain, cfg: Option<string>, hash: Hash)
    requires c.name != "" && d.name != "" && (c.namespace != d.namespace || c.name != d.name)
    ensures (exists p :: BothSettled(c, d, cfg, hash, p)) <==> !ShareAPod(c, d)
  {
    if ShareAPod(c, d) {
      forall p ensures !BothSettled(c, d, cfg, hash, p) { SharedPodNeverSettles(c, d, cfg, hash, p); }
    } else {
      var g, h := GoalOf(c, cfg, hash), GoalOf(d, cfg, hash);
      ChainIsLabelled(c, cfg, hash);
      ChainIsLabelled(d, cfg, hash);
      if c.namespace == d.namespace { ShareAPodIff(c, d, cfg, hash); }
      ApartSettle(g, h);
      assert BothSettled(c, d, cfg, hash, PodsOfBoth(g, h));
    }
  }

  /** For one: chain "a" with function "b-c" and chain "a-b" with function "c". */
  lemma DashedNamesNeverSettle(c: Chain, d: Chain, cfg: Option<string>, hash: Hash, p: Pods)
    requires c.namespace == d.namespace && c.name == "a" && d.name == "a-b"
    requires |c.functions| == 1 && c.functions[0].name == "b-c"
    requires |d.functions| == 1 && d.functions[0].name == "c"
    ensures !BothSettled(c, d, cfg, hash, p)
  {
    var f, g := c.functions[0], d.functions[0];
    assert d.name == c.name + "-" + "b" && f.name == "b" + "-" + g.name;
    assert f in c.functions && g in d.functions && NamesMeet(c, f, d, g);
    SharedPodNeverSettles(c, d, cfg, hash, p);
  }

  ghost predicate Unrelated(g: Goal, h: Goal, p: Pods) {
    g.namespace == h.namespace ==>
      && g.sfc != h.sfc
      && g.desired.Keys !! h.desired.Keys
      && (forall n :: n in g.desired ==> Labelled(g.desired[n], g.sfc))
      && forall n :: n in h.desired && PodKey(h.namespace, n) in p ==> !Labelled(p[PodKey(h.namespace, n)], g.sfc)
  }

  /** Two chains that share no pod name and hold no pod of each other can be reconciled in either
      order: the cluster ends the same. */
  lemma ChainsCommute(g: Goal, h: Goal, p: Pods, pg: Pods, pgh: Pods, ph: Pods, phg: Pods)
    requires Unrelated(g, h, p) && Unrelated(h, g, p) && g.sfc != "" && h.sfc != ""
    requires Reached(g, p, pg) && Reached(h, pg, pgh)
    requires Reached(h, p, ph) && Reached(g, ph, phg)
    ensures pgh == phg
  {
    forall k ensures Find(pgh, k) == Find(phg, k) {
      assert Find(pg, k) == Outcome(g, p, k);
      assert Find(ph, k) == Outcome(h, p, k);
      assert Find(pgh, k) == Outcome(h, pg, k);
      assert Find(phg, k) == Outcome(g, ph, k);
      OneOfTwoChains(g, h, p, pg, k);
      OneOfTwoChains(h, g, p, ph, k);
    }
    SameMap(pgh, phg);
  }

  /** What the first chain leaves under a name of its own is nothing the second one looks at. */
  lemma OneOfTwoChains(g: Goal, h: Goal, p: Pods, pg: Pods, k: PodKey)
    requires Unrelated(g, h, p) && Unrelated(h, g, p) && g.sfc != ""
    requires Find(pg, k) == Outcome(g, p, k)
    ensures k.namespace == g.namespace == h.namespace && k.name in g.desired ==>
      Outcome(h, pg, k) == Find(pg, k)
  {
    if k.namespace == g.namespace == h.namespace && k.name in g.desired {
      var d := g.desired[k.name];
      if k in p { OverlayAgrees(p[k].labels, d.labels); }
      assert Lookup(pg[k].labels, SFC_LABEL) == g.sfc;
    }
  }
}
