/** Host-side VF allocation: cached confs and PCI lock files under CNI adds, deletes (late ones and
    failing ones included) and dying network namespaces. */
module Sriov {
  import opened Common
  import opened Strings

  datatype NetConf = NetConf(deviceID: string, ipam: bool)

  type Cache = map<string, NetConf>

  /** Lock files: PCI address to the path of the network namespace that holds it. */
  type Locks = map<string, string>

  function CacheRef(containerID: string, ifName: string): string {
    containerID + "-" + ifName
  }

  /** The container of a cache reference: everything before the first dash. */
  function ContainerOf(cref: string): (containerID: string)
    ensures '-' !in containerID
  {
    if cref == "" || cref[0] == '-' then "" else [cref[0]] + ContainerOf(cref[1..])
  }

  /** Container ids hold no dash, so the joined reference tells the container. */
  lemma {:induction false} ContainerOfRef(containerID: string, ifName: string)
    requires '-' !in containerID
    ensures ContainerOf(CacheRef(containerID, ifName)) == containerID
  {
    var cref := CacheRef(containerID, ifName);
    if containerID == "" {
      assert cref[0] == '-';
    } else {
      assert cref[1..] == CacheRef(containerID[1..], ifName);
      ContainerOfRef(containerID[1..], ifName);
    }
  }

  /** With containers without a dash, two references coincide for one container and interface only. */
  lemma RefsApart(containerID: string, ifName: string, containerID': string, ifName': string)
    requires '-' !in containerID && '-' !in containerID'
    ensures CacheRef(containerID, ifName) == CacheRef(containerID', ifName') <==>
      containerID == containerID' && ifName == ifName'
  {
    ContainerOfRef(containerID, ifName);
    ContainerOfRef(containerID', ifName');
    if CacheRef(containerID, ifName) == CacheRef(containerID', ifName') {
      SamePrefix(containerID + "-", ifName, ifName');
    }
  }

  /** The conf cached for an interface of a container. */
  function ConfOf(cache: Cache, containerID: string, ifName: string): Option<NetConf> {
    Find(cache, CacheRef(containerID, ifName))
  }

  /** Every other interface, of this container or another one, keeps its conf. */
  ghost predicate OthersCached(cache: Cache, cache': Cache, containerID: string, ifName: string) {
    forall c, i :: '-' !in c && (c != containerID || i != ifName) ==> ConfOf(cache', c, i) == ConfOf(cache, c, i)
  }

  lemma OneCached(cache: Cache, cache': Cache, containerID: string, ifName: string)
    requires '-' !in containerID
    requires forall cref :: cref != CacheRef(containerID, ifName) ==> Find(cache', cref) == Find(cache, cref)
    ensures OthersCached(cache, cache', containerID, ifName)
  {
    forall c, i | '-' !in c && (c != containerID || i != ifName)
      ensures ConfOf(cache', c, i) == ConfOf(cache, c, i)
    {
      RefsApart(containerID, ifName, c, i);
    }
  }

  /** Namespaces that are there, and those that are gone for good. */
  datatype Namespaces = Namespaces(live: set<string>, dead: set<string>)

  ghost function Owner(sandbox: string -> string, cref: string): string {
    sandbox(ContainerOf(cref))
  }

  ghost predicate LockedBy(locks: Locks, pci: string, netns: string) {
    pci in locks && locks[pci] == netns
  }

  /** `held` records which namespaces were given which VF by a successful add and not yet released. */
  ghost predicate Consistent(
    sandbox: string -> string, cache: Cache, locks: Locks, ns: Namespaces, held: set<(string, string)>)
  {
    && ns.live !! ns.dead && "" !in ns.live
    && (forall pci :: pci in locks ==> locks[pci] in ns.live + ns.dead)
    && (forall cref :: cref in cache ==> '-' in cref && Owner(sandbox, cref) in ns.live + ns.dead)
    && (forall h :: h in held ==> h.1 in ns.live + ns.dead)
    && (forall h :: h in held && h.1 in ns.live ==> LockedBy(locks, h.0, h.1))
    && (forall cref :: cref in cache && Owner(sandbox, cref) in ns.live ==>
          LockedBy(locks, cache[cref].deviceID, Owner(sandbox, cref)))
    && (forall c, c' :: c in cache && c' in cache && SharesLiveDevice(sandbox, cache, ns, c, c') ==> c == c')
  }

  ghost predicate SharesLiveDevice(sandbox: string -> string, cache: Cache, ns: Namespaces, c: string, c': string)
    requires c in cache && c' in cache
  {
    cache[c].deviceID == cache[c'].deviceID && Owner(sandbox, c) in ns.live && Owner(sandbox, c') in ns.live
  }

  ghost predicate Exclusive(held: set<(string, string)>, ns: Namespaces) {
    forall h, h' :: h in held && h' in held && h.0 == h'.0 && h.1 in ns.live && h'.1 in ns.live ==> h == h'
  }

  lemma ConsistentIsExclusive(
    sandbox: string -> string, cache: Cache, locks: Locks, ns: Namespaces, held: set<(string, string)>)
    requires Consistent(sandbox, cache, locks, ns, held)
    ensures Exclusive(held, ns)
  {
    forall h, h' | h in held && h' in held && h.0 == h'.0 && h.1 in ns.live && h'.1 in ns.live ensures h == h' {
      assert LockedBy(locks, h.0, h.1) && LockedBy(locks, h'.0, h'.1);
    }
  }

  lemma GrantKeepsConsistent(
    sandbox: string -> string, cache: Cache, locks: Locks, ns: Namespaces, held: set<(string, string)>,
    cref: string, conf: NetConf)
    requires Consistent(sandbox, cache, locks, ns, held)
    requires conf.deviceID !in locks && '-' in cref && Owner(sandbox, cref) in ns.live
    ensures var netns := Owner(sandbox, cref);
      Consistent(sandbox, cache[cref := conf], locks[conf.deviceID := netns], ns, held + {(conf.deviceID, netns)})
  {
  }

  lemma ReleaseKeepsConsistent(
    sandbox: string -> string, cache: Cache, locks: Locks, ns: Namespaces, held: set<(string, string)>, cref: string)
    requires Consistent(sandbox, cache, locks, ns, held)
    requires cref in cache && Owner(sandbox, cref) in ns.live
    ensures var pci, netns := cache[cref].deviceID, Owner(sandbox, cref);
      Consistent(sandbox, cache - {cref}, locks - {pci}, ns, held - {(pci, netns)})
  {
    var pci, netns := cache[cref].deviceID, Owner(sandbox, cref);
    forall h | h in held - {(pci, netns)} && h.1 in ns.live ensures LockedBy(locks - {pci}, h.0, h.1) {
      assert LockedBy(locks, h.0, h.1) && LockedBy(locks, pci, netns);
      assert h.0 != pci;
    }
  }

  /** How far a delete got. */
  datatype DelStep =
    | NotCached
    | IpamFailed
    | NoNetns            // the request names no namespace
    | VfidFailed
    | ResetFailed
    | NamespaceGone
    | ReleaseFailed
    | LockMissing
    | Released

  predicate Succeeds(step: DelStep) {
    step in {NotCached, NoNetns, NamespaceGone, Released}
  }

  /** A container with a live namespace still has the VF in its cached conf. */
  ghost predicate Named(sandbox: string -> string, cache: Cache, ns: Namespaces, pci: string) {
    exists cref :: cref in cache && cache[cref].deviceID == pci && Owner(sandbox, cref) in ns.live
  }

  /** Locked by a live namespace that no longer knows it. */
  ghost predicate Stranded(sandbox: string -> string, cache: Cache, locks: Locks, ns: Namespaces, pci: string) {
    pci in locks && locks[pci] in ns.live && !Named(sandbox, cache, ns, pci)
  }

  /** Dropping a cached conf without its lock. */
  lemma DropStrands(
    sandbox: string -> string, cache: Cache, locks: Locks, ns: Namespaces, held: set<(string, string)>, cref: string)
    requires Consistent(sandbox, cache, locks, ns, held) && cref in cache
    ensures Consistent(sandbox, cache - {cref}, locks, ns, held)
    ensures Owner(sandbox, cref) in ns.live ==>
      && LockedBy(locks, cache[cref].deviceID, Owner(sandbox, cref))
      && Stranded(sandbox, cache - {cref}, locks, ns, cache[cref].deviceID)
  {
    if Owner(sandbox, cref) in ns.live {
      forall c | c in cache - {cref} && cache[c].deviceID == cache[cref].deviceID
        ensures Owner(sandbox, c) !in ns.live
      {
        assert SharesLiveDevice(sandbox, cache, ns, c, cref) ==> c == cref;
      }
    }
  }

  /** The external commands of an add, and of a delete that releases the VF. */
  function AddCommands(conf: NetConf): nat { if conf.ipam then 5 else 4 }

  function DelCommands(conf: NetConf): nat { if conf.ipam then 4 else 3 }

  class Manager {
    /** The network namespace of each container, as the runtime sets it up. */
    const sandbox: string -> string
    const faults: Faults
    var cache: Cache
    var locks: Locks
    var ns: Namespaces
    ghost var held: set<(string, string)>

    ghost predicate Valid()
      reads this
    {
      Consistent(sandbox, cache, locks, ns, held)
    }

    constructor (sandbox: string -> string, faults: Faults)
      ensures this.sandbox == sandbox && this.faults == faults
      ensures Valid() && cache == map[] && locks == map[] && ns == Namespaces({}, {}) && held == {}
    {
      this.sandbox, this.faults := sandbox, faults;
      cache, locks, ns, held := map[], map[], Namespaces({}, {}), {};
    }

    method NamespaceStarts(netns: string)
      requires Valid() && netns != "" && netns !in ns.dead
      modifies this`ns
      ensures Valid() && ns == old(ns).(live := old(ns).live + {netns})
    {
      ns := ns.(live := ns.live + {netns});
    }

    method NamespaceDies(netns: string)
      requires Valid()
      modifies this`ns
      ensures Valid() && ns == Namespaces(old(ns).live - {netns}, old(ns).dead + {netns})
    {
      ns := Namespaces(ns.live - {netns}, ns.dead + {netns});
    }

    /** A lock of a namespace that is gone counts for nothing, and the question removes it. */
    method IsAllocated(pci: string) returns (inUse: bool)
      requires Valid()
      modifies this`locks
      ensures Valid()
      ensures inUse <==> pci in old(locks) && old(locks)[pci] in ns.live
      ensures locks == if inUse then old(locks) else old(locks) - {pci}
    {
      if pci !in locks { return false; }
      if locks[pci] !in ns.live {
        locks := locks - {pci};
        return false;
      }
      return true;
    }

    method SaveAllocatedPCI(pci: string, netns: string)
      modifies this`locks
      ensures locks == old(locks)[pci := netns]
    {
      locks := locks[pci := netns];
    }

    method DeleteAllocatedPCI(pci: string) returns (ok: bool)
      modifies this`locks
      ensures ok <==> pci in old(locks)
      ensures locks == old(locks) - {pci}
    {
      ok := pci in locks;
      locks := locks - {pci};
    }

    /** The allocation gate. Everything else that can go wrong here, an invalid setting or a VF that
        is not in the host namespace, is a failure without effect. */
    method LoadConf(deviceID: string) returns (ok: bool)
      requires Valid()
      modifies this`locks, faults
      ensures Valid() && (locks == old(locks) || (locks == old(locks) - {deviceID} && !old(LockedByLive(deviceID))))
      ensures ok ==> deviceID != "" && deviceID !in locks
      ensures old(LockedByLive(deviceID)) ==> !ok
      ensures ok <==> deviceID != "" && !old(LockedByLive(deviceID)) && AllWork(old(faults.script), 2)
      ensures ok ==> faults.script == Drop(old(faults.script), 2)
      ensures old(faults.script) == [] ==> faults.script == []
    {
      OneByOne(faults.script);
      OneByOne(Rest(faults.script));
      if deviceID == "" { return false; }
      ok := faults.Next();  // PF name and VF id
      if !ok { return; }
      var inUse := IsAllocated(deviceID);
      if inUse { return false; }
      ok := faults.Next();  // host interface name and settings
    }

    method CmdAdd(containerID: string, ifName: string, netns: string, conf: NetConf) returns (ok: bool)
      requires Valid() && '-' !in containerID && netns == sandbox(containerID)
      modifies this`cache, this`locks, this`held, faults
      ensures Valid()
      ensures ok ==>
        && netns in ns.live
        && cache == old(cache)[CacheRef(containerID, ifName) := conf]
        && locks == old(locks)[conf.deviceID := netns]
        && held == old(held) + {(conf.deviceID, netns)}
      ensures !ok ==>
        && cache == old(cache) && held == old(held)
        && (locks == old(locks) || (locks == old(locks) - {conf.deviceID} && !old(LockedByLive(conf.deviceID))))
      ensures ok ==> ConfOf(cache, containerID, ifName) == Some(conf)
      ensures OthersCached(old(cache), cache, containerID, ifName)
      ensures old(LockedByLive(conf.deviceID)) ==> !ok
      ensures ok <==>
        && conf.deviceID != "" && netns in ns.live && !old(LockedByLive(conf.deviceID))
        && AllWork(old(faults.script), AddCommands(conf))
      ensures old(faults.script) == [] ==> faults.script == []
    {
      FirstAndThen(faults.script, 2, AddCommands(conf) - 2);
      ok := LoadConf(conf.deviceID);
      if !ok { return; }
      if netns !in ns.live { return false; }
      ok := SetUpDevice(conf);
      if !ok { return; }
      ContainerOfRef(containerID, ifName);
      Grant(CacheRef(containerID, ifName), netns, conf);
      OneCached(old(cache), cache, containerID, ifName);
    }

    /** The end of an add: the conf is cached and the VF marked as in use. */
    method Grant(cref: string, netns: string, conf: NetConf)
      requires Valid() && '-' in cref && netns == Owner(sandbox, cref) && netns in ns.live
      requires conf.deviceID !in locks
      modifies this`cache, this`locks, this`held
      ensures Valid()
      ensures cache == old(cache)[cref := conf] && locks == old(locks)[conf.deviceID := netns]
      ensures held == old(held) + {(conf.deviceID, netns)}
    {
      GrantKeepsConsistent(sandbox, cache, locks, ns, held, cref, conf);
      cache := cache[cref := conf];
      SaveAllocatedPCI(conf.deviceID, netns);
      held := held + {(conf.deviceID, netns)};
    }

    method SetUpDevice(conf: NetConf) returns (ok: bool)
      modifies faults
      ensures ok <==> AllWork(old(faults.script), AddCommands(conf) - 2)
      ensures old(faults.script) == [] ==> faults.script == []
    {
      OneByOne(faults.script);
      OneByOne(Rest(faults.script));
      OneByOne(Rest(Rest(faults.script)));
      ok := faults.Next();  // ApplyVFConfig
      if !ok { return; }
      ok := faults.Next();  // SetupVF
      if ok && conf.ipam {
        ok := faults.Next();  // IPAM and interface configuration
      }
    }

    ghost predicate LockedByLive(pci: string)
      reads this
    {
      pci in locks && locks[pci] in ns.live
    }

    /** Deletes come with the namespace of their container, or with none. Only a failed IPAM delete
        keeps the cached conf. Every other failure, and a delete without namespace, loses it while the
        lock stays: if the namespace is live, its VF is stranded. */
    method CmdDel(containerID: string, ifName: string, netns: string) returns (step: DelStep)
      requires Valid() && '-' !in containerID && netns in {"", sandbox(containerID)}
      modifies this`cache, this`locks, this`held, faults
      ensures Valid() && step != LockMissing
      ensures var cref := CacheRef(containerID, ifName);
        && (step == NotCached <==> cref !in old(cache))
        && (step == IpamFailed <==> cref in old(cache) && old(cache)[cref].ipam && !Works(old(faults.script)))
        && cache == (if step == IpamFailed then old(cache) else old(cache) - {cref})
        && (step == Released ==>
              && netns in ns.live
              && var pci := old(cache)[cref].deviceID;
                 && old(LockedBy(locks, pci, netns))
                 && locks == old(locks) - {pci}
                 && held == old(held) - {(pci, netns)})
        && (step != Released ==> locks == old(locks) && held == old(held))
        && (step !in {NotCached, IpamFailed, Released} && sandbox(containerID) in ns.live ==>
              Stranded(sandbox, cache, locks, ns, old(cache)[cref].deviceID))
      ensures var cref := CacheRef(containerID, ifName);
        step == Released <==>
          && cref in old(cache) && netns in ns.live
          && AllWork(old(faults.script), DelCommands(old(cache)[cref]))
      ensures step != IpamFailed ==> ConfOf(cache, containerID, ifName) == None
      ensures OthersCached(old(cache), cache, containerID, ifName)
      ensures step == NoNetns ==> netns == ""
      ensures step == NamespaceGone ==> netns !in ns.live
      ensures old(faults.script) == [] ==> Succeeds(step) && faults.script == []
    {
      var cref := CacheRef(containerID, ifName);
      if cref !in cache { return NotCached; }
      ContainerOfRef(containerID, ifName);
      var conf := cache[cref];
      OneByOne(faults.script);
      FirstAndThen(faults.script, 1, 3);
      assert Owner(sandbox, cref) == sandbox(containerID);
      if conf.ipam {
        var ok := faults.Next();  // IPAM delete
        if !ok { return IpamFailed; }
      }
      if netns in ns.live { ReleaseKeepsConsistent(sandbox, cache, locks, ns, held, cref); }
      DropStrands(sandbox, cache, locks, ns, held, cref);
      step := ReleaseDevice(conf, netns);
      if step != LockMissing { cache := cache - {cref}; }
      OneCached(old(cache), cache, containerID, ifName);
    }

    /** The rest of a delete. The missing lock file is the one error after which the conf stays. */
    method ReleaseDevice(conf: NetConf, netns: string) returns (step: DelStep)
      requires "" !in ns.live
      modifies this`locks, this`held, faults
      ensures step !in {NotCached, IpamFailed}
      ensures step == Released ==>
        && netns in ns.live && conf.deviceID in old(locks)
        && locks == old(locks) - {conf.deviceID}
        && held == old(held) - {(conf.deviceID, netns)}
      ensures step != Released ==> locks == old(locks) && held == old(held)
      ensures step == LockMissing ==> conf.deviceID !in old(locks) && netns in ns.live
      ensures step == NoNetns <==> netns == ""
      ensures var script := old(faults.script);
        && (step == VfidFailed <==> netns != "" && !Works(script))
        && (step == ResetFailed <==> netns != "" && Works(script) && !Works(Rest(script)))
        && (step == NamespaceGone <==> netns != "" && netns !in ns.live && AllWork(script, 2))
        && (step == ReleaseFailed <==> netns in ns.live && AllWork(script, 2) && !Works(Drop(script, 2)))
        && (step == Released <==> netns in ns.live && conf.deviceID in old(locks) && AllWork(script, 3))
      ensures old(faults.script) == [] ==> faults.script == []
    {
      OneByOne(faults.script);
      OneByOne(Rest(faults.script));
      OneByOne(Rest(Rest(faults.script)));
      if netns == "" { return NoNetns; }
      var ok := faults.Next();  // GetVfid
      if !ok { return VfidFailed; }
      ok := faults.Next();
      if !ok { return ResetFailed; }
      if netns !in ns.live { return NamespaceGone; }
      ok := faults.Next();
      if !ok { return ReleaseFailed; }
      ok := DeleteAllocatedPCI(conf.deviceID);
      if !ok { return LockMissing; }
      held := held - {(conf.deviceID, netns)};
      return Released;
    }
  }

  /* ----- runs ----- */

  datatype Event =
    | Start(netns: string)
    | Death(netns: string)
    | Add(containerID: string, ifName: string, conf: NetConf)
    | Del(containerID: string, ifName: string, withNetns: bool)

  /** Namespace paths are not used twice and container ids hold no dash; nothing else is asked. */
  ghost predicate Plausible(ns: Namespaces, e: Event) {
    match e
    case Start(netns) => netns != "" && netns !in ns.dead
    case Death(_) => true
    case Add(containerID, _, _) => '-' !in containerID
    case Del(containerID, _, _) => '-' !in containerID
  }

  ghost function After(ns: Namespaces, e: Event): Namespaces {
    match e
    case Start(netns) => ns.(live := ns.live + {netns})
    case Death(netns) => Namespaces(ns.live - {netns}, ns.dead + {netns})
    case _ => ns
  }

  ghost predicate PlausibleRun(ns: Namespaces, es: seq<Event>)
    decreases |es|
  {
    es != [] ==> Plausible(ns, es[0]) && PlausibleRun(After(ns, es[0]), es[1..])
  }

  /* ----- the machine without stale lock files ----- */

  /** A namespace's death frees its VFs at once. */
  datatype Simple = Simple(cache: Cache, holders: map<string, string>, ns: Namespaces)

  ghost function LiveLocks(locks: Locks, live: set<string>): Locks {
    map pci | pci in locks && locks[pci] in live :: locks[pci]
  }

  ghost function SimpleStep(sandbox: string -> string, s: Simple, e: Event): Simple {
    var ns := After(s.ns, e);
    match e
    case Start(netns) => s.(ns := ns)
    case Death(netns) => Simple(s.cache, LiveLocks(s.holders, ns.live), ns)
    case Add(containerID, ifName, conf) =>
      var netns := sandbox(containerID);
      if conf.deviceID != "" && netns in ns.live && conf.deviceID !in s.holders then
        Simple(s.cache[CacheRef(containerID, ifName) := conf], s.holders[conf.deviceID := netns], ns)
      else s
    case Del(containerID, ifName, withNetns) =>
      var cref := CacheRef(containerID, ifName);
      if cref !in s.cache then s
      else
        var frees := withNetns && sandbox(containerID) in ns.live;
        Simple(s.cache - {cref}, if frees then s.holders - {s.cache[cref].deviceID} else s.holders, ns)
  }

  ghost function SimpleRun(sandbox: string -> string, s: Simple, es: seq<Event>): Simple
    decreases |es|
  {
    if es == [] then s else SimpleRun(sandbox, SimpleStep(sandbox, s, es[0]), es[1..])
  }

  datatype Snapshot = Snapshot(cache: Cache, locks: Locks, ns: Namespaces)

  ghost function Now(m: Manager): Snapshot
    reads m
  {
    Snapshot(m.cache, m.locks, m.ns)
  }

  ghost function View(s: Snapshot): Simple {
    Simple(s.cache, LiveLocks(s.locks, s.ns.live), s.ns)
  }

  lemma LiveLocksWith(locks: Locks, live: set<string>, pci: string, netns: string)
    requires netns in live
    ensures LiveLocks(locks[pci := netns], live) == LiveLocks(locks, live)[pci := netns]
  {
  }

  lemma LiveLocksWithout(locks: Locks, live: set<string>, pci: string)
    ensures LiveLocks(locks - {pci}, live) == LiveLocks(locks, live) - {pci}
    ensures pci in locks && locks[pci] !in live ==> LiveLocks(locks - {pci}, live) == LiveLocks(locks, live)
  {
  }

  /** A delete with the live namespace of a container whose cached conf names the VF. */
  ghost predicate Frees(sandbox: string -> string, cache: Cache, ns: Namespaces, e: Event, pci: string) {
    && e.Del? && e.withNetns && '-' !in e.containerID
    && var cref := CacheRef(e.containerID, e.ifName);
       cref in cache && cache[cref].deviceID == pci && sandbox(e.containerID) in ns.live
  }

  /** A cache reference with a dash is that of its container and some interface. */
  lemma {:induction false} RefIsJoined(cref: string) returns (ifName: string)
    requires '-' in cref
    ensures cref == CacheRef(ContainerOf(cref), ifName)
  {
    if cref[0] == '-' {
      ifName := cref[1..];
    } else {
      ifName := RefIsJoined(cref[1..]);
      assert cref == [cref[0]] + cref[1..];
    }
  }

  /** Some delete can still free the VF exactly when a live container's cached conf names it. */
  lemma FreeableIffNamed(
    sandbox: string -> string, cache: Cache, locks: Locks, ns: Namespaces, held: set<(string, string)>, pci: string)
    requires Consistent(sandbox, cache, locks, ns, held)
    ensures (exists e :: Frees(sandbox, cache, ns, e, pci)) <==> Named(sandbox, cache, ns, pci)
  {
    if e :| Frees(sandbox, cache, ns, e, pci) {
      ContainerOfRef(e.containerID, e.ifName);
      assert Owner(sandbox, CacheRef(e.containerID, e.ifName)) in ns.live;
    }
    if Named(sandbox, cache, ns, pci) {
      var cref :| cref in cache && cache[cref].deviceID == pci && Owner(sandbox, cref) in ns.live;
      var ifName := RefIsJoined(cref);
      assert Frees(sandbox, cache, ns, Del(ContainerOf(cref), ifName, true), pci);
    }
  }

  ghost predicate IsStranded(sandbox: string -> string, s: Snapshot, pci: string) {
    Stranded(sandbox, s.cache, s.locks, s.ns, pci)
  }

  /** A lock whose holder lives on is lost to a delete that frees it and whose commands all succeed, and
      to nothing else. */
  ghost predicate HoldersKeep(sandbox: string -> string, s: Snapshot, t: Snapshot, e: Event, script: seq<bool>) {
    forall pci :: pci in s.locks && s.locks[pci] in s.ns.live && s.locks[pci] in t.ns.live ==>
      && (if Releases(sandbox, s, e, script, pci) then pci !in t.locks else LockedBy(t.locks, pci, s.locks[pci]))
      && (IsStranded(sandbox, s, pci) ==> IsStranded(sandbox, t, pci))
  }

  ghost predicate Releases(sandbox: string -> string, s: Snapshot, e: Event, script: seq<bool>, pci: string) {
    && Frees(sandbox, s.cache, s.ns, e, pci)
    && AllWork(script, DelCommands(s.cache[CacheRef(e.containerID, e.ifName)]))
  }

  /** What strands a VF: a delete that gets past IPAM and does not release it, or an add that succeeds
      over a live cached conf that names it. */
  ghost predicate Strands(sandbox: string -> string, s: Snapshot, e: Event, script: seq<bool>, pci: string) {
    match e
    case Start(_) => false
    case Death(_) => false
    case Add(containerID, ifName, conf) =>
      && IsCached(sandbox, s, containerID, ifName, pci)
      && conf.deviceID != "" && !HeldLive(s, conf.deviceID)
      && AllWork(script, AddCommands(conf))
    case Del(containerID, ifName, withNetns) =>
      && IsCached(sandbox, s, containerID, ifName, pci)
      && var conf := s.cache[CacheRef(containerID, ifName)];
         && (conf.ipam ==> Works(script))
         && !(withNetns && AllWork(script, DelCommands(conf)))
  }

  /** A live container's cached conf of that interface names the VF. */
  ghost predicate IsCached(
    sandbox: string -> string, s: Snapshot, containerID: string, ifName: string, pci: string)
  {
    var cref := CacheRef(containerID, ifName);
    cref in s.cache && s.cache[cref].deviceID == pci && sandbox(containerID) in s.ns.live
  }

  /** Exactly those events newly strand a VF. */
  ghost predicate StrandsOnly(sandbox: string -> string, s: Snapshot, t: Snapshot, e: Event, script: seq<bool>) {
    forall pci :: !IsStranded(sandbox, s, pci) ==>
      (IsStranded(sandbox, t, pci) <==> Strands(sandbox, s, e, script, pci))
  }

  lemma AddStrands(
    sandbox: string -> string, s: Snapshot, t: Snapshot, held: set<(string, string)>, containerID: string,
    ifName: string, conf: NetConf)
    requires Consistent(sandbox, s.cache, s.locks, s.ns, held) && '-' !in containerID
    requires sandbox(containerID) in s.ns.live
    requires !HeldLive(s, conf.deviceID)
    requires t == Snapshot(
      s.cache[CacheRef(containerID, ifName) := conf], s.locks[conf.deviceID := sandbox(containerID)], s.ns)
    ensures forall pci :: !IsStranded(sandbox, s, pci) ==>
      (IsStranded(sandbox, t, pci) <==> IsCached(sandbox, s, containerID, ifName, pci))
    ensures forall pci :: IsStranded(sandbox, s, pci) ==> IsStranded(sandbox, t, pci)
  {
    var cref := CacheRef(containerID, ifName);
    ContainerOfRef(containerID, ifName);
    forall pci
      ensures !IsStranded(sandbox, s, pci) ==>
        (IsStranded(sandbox, t, pci) <==> IsCached(sandbox, s, containerID, ifName, pci))
      ensures IsStranded(sandbox, s, pci) ==> IsStranded(sandbox, t, pci)
    {
      AddStrandsAt(sandbox, s, t, held, cref, conf, pci);
    }
  }

  lemma AddStrandsAt(
    sandbox: string -> string, s: Snapshot, t: Snapshot, held: set<(string, string)>, cref: string,
    conf: NetConf, pci: string)
    requires Consistent(sandbox, s.cache, s.locks, s.ns, held)
    requires Owner(sandbox, cref) in s.ns.live
    requires !HeldLive(s, conf.deviceID)
    requires t == Snapshot(s.cache[cref := conf], s.locks[conf.deviceID := Owner(sandbox, cref)], s.ns)
    ensures !IsStranded(sandbox, s, pci) ==>
      (IsStranded(sandbox, t, pci) <==> cref in s.cache && s.cache[cref].deviceID == pci)
    ensures IsStranded(sandbox, s, pci) ==> IsStranded(sandbox, t, pci)
  {
    assert t.cache[cref] == conf;
    if pci == conf.deviceID {
      assert Named(sandbox, t.cache, t.ns, pci);
      assert cref in s.cache && s.cache[cref].deviceID == pci ==> LockedBy(s.locks, pci, Owner(sandbox, cref));
    } else if cref in s.cache && s.cache[cref].deviceID == pci {
      assert LockedBy(s.locks, pci, Owner(sandbox, cref));
      forall c | c in t.cache && t.cache[c].deviceID == pci ensures Owner(sandbox, c) !in s.ns.live {
        assert SharesLiveDevice(sandbox, s.cache, s.ns, c, cref) ==> c == cref;
      }
    } else {
      assert Named(sandbox, s.cache, s.ns, pci) <==> Named(sandbox, t.cache, t.ns, pci) by {
        if c :| c in s.cache && s.cache[c].deviceID == pci && Owner(sandbox, c) in s.ns.live { assert c in t.cache; }
      }
    }
  }

  /** An event that leaves the cache and live locks alone strands nothing and frees nothing. */
  lemma NothingStrands(sandbox: string -> string, s: Snapshot, t: Snapshot)
    requires t.cache == s.cache && t.ns == s.ns
    requires t.locks == s.locks
      || exists pci :: t.locks == s.locks - {pci} && !HeldLive(s, pci)
    ensures forall pci :: IsStranded(sandbox, s, pci) <==> IsStranded(sandbox, t, pci)
  {
  }

  /** An event touches the conf of its own interface only: a delete may drop it, an add may put its own
      there, of a VF no live namespace has locked. */
  ghost predicate CacheFollows(s: Snapshot, t: Snapshot, e: Event) {
    forall c, i :: '-' !in c ==>
      || ConfOf(t.cache, c, i) == ConfOf(s.cache, c, i)
      || (e.Del? && e.containerID == c && e.ifName == i && ConfOf(t.cache, c, i) == None)
      || (e.Add? && e == Add(c, i, e.conf) && ConfOf(t.cache, c, i) == Some(e.conf) && !HeldLive(s, e.conf.deviceID))
  }

  /** The event is an add or a delete of that interface. */
  predicate Concerns(e: Event, containerID: string, ifName: string) {
    (e.Add? || e.Del?) && e.containerID == containerID && e.ifName == ifName
  }

  /** The cached conf names the VF. */
  ghost predicate Names(cache: Cache, containerID: string, ifName: string, pci: string) {
    ConfOf(cache, containerID, ifName).Some? && ConfOf(cache, containerID, ifName).value.deviceID == pci
  }

  /** A delete that came with that namespace, of an interface whose conf named the VF. */
  ghost predicate DeletesVf(sandbox: string -> string, cache: Cache, e: Event, netns: string, pci: string) {
    && e.Del? && e.withNetns && sandbox(e.containerID) == netns
    && '-' !in e.containerID && Names(cache, e.containerID, e.ifName, pci)
  }

  /** What names a locked VF after an event did so before. */
  lemma NamedBefore(s: Snapshot, t: Snapshot, e: Event, containerID: string, ifName: string, pci: string)
    requires CacheFollows(s, t, e) && HeldLive(s, pci)
    requires '-' !in containerID && Names(t.cache, containerID, ifName, pci)
    ensures Names(s.cache, containerID, ifName, pci)
  {
    assert ConfOf(t.cache, containerID, ifName).Some?;
  }

  method Handle(m: Manager, e: Event)
    requires m.Valid() && Plausible(m.ns, e)
    modifies m, m.faults
    ensures m.Valid() && m.ns == After(old(m.ns), e)
    ensures CacheFollows(old(Now(m)), Now(m), e)
    ensures HoldersKeep(m.sandbox, old(Now(m)), Now(m), e, old(m.faults.script))
    ensures StrandsOnly(m.sandbox, old(Now(m)), Now(m), e, old(m.faults.script))
    ensures old(m.faults.script) == [] ==>
      m.faults.script == [] && View(Now(m)) == SimpleStep(m.sandbox, View(old(Now(m))), e)
  {
    match e {
      case Start(netns) => m.NamespaceStarts(netns);
      case Death(netns) => m.NamespaceDies(netns);
      case Add(containerID, ifName, conf) => HandleAdd(m, containerID, ifName, conf);
      case Del(containerID, ifName, withNetns) => HandleDel(m, containerID, ifName, withNetns);
    }
  }

  ghost predicate Added(
    sandbox: string -> string, s: Snapshot, t: Snapshot, containerID: string, ifName: string, conf: NetConf, ok: bool)
  {
    && t.ns == s.ns
    && (ok ==>
          && sandbox(containerID) in s.ns.live
          && t.cache == s.cache[CacheRef(containerID, ifName) := conf]
          && t.locks == s.locks[conf.deviceID := sandbox(containerID)])
    && (!ok ==>
          && t.cache == s.cache
          && (t.locks == s.locks || (t.locks == s.locks - {conf.deviceID} && !HeldLive(s, conf.deviceID))))
  }

  ghost predicate HeldLive(s: Snapshot, pci: string) {
    pci in s.locks && s.locks[pci] in s.ns.live
  }

  lemma AddFollows(s: Snapshot, t: Snapshot, containerID: string, ifName: string, conf: NetConf)
    requires OthersCached(s.cache, t.cache, containerID, ifName)
    requires t.cache == s.cache || (ConfOf(t.cache, containerID, ifName) == Some(conf) && !HeldLive(s, conf.deviceID))
    ensures CacheFollows(s, t, Add(containerID, ifName, conf))
  {
  }

  lemma DelFollows(s: Snapshot, t: Snapshot, containerID: string, ifName: string, withNetns: bool)
    requires OthersCached(s.cache, t.cache, containerID, ifName)
    requires t.cache == s.cache || ConfOf(t.cache, containerID, ifName) == None
    ensures CacheFollows(s, t, Del(containerID, ifName, withNetns))
  {
  }

  lemma AddKeeps(
    sandbox: string -> string, s: Snapshot, t: Snapshot, held: set<(string, string)>, containerID: string,
    ifName: string, conf: NetConf, script: seq<bool>, ok: bool)
    requires Consistent(sandbox, s.cache, s.locks, s.ns, held) && '-' !in containerID
    requires Added(sandbox, s, t, containerID, ifName, conf, ok)
    requires ok <==>
      && conf.deviceID != "" && sandbox(containerID) in s.ns.live && !HeldLive(s, conf.deviceID)
      && AllWork(script, AddCommands(conf))
    ensures HoldersKeep(sandbox, s, t, Add(containerID, ifName, conf), script)
    ensures StrandsOnly(sandbox, s, t, Add(containerID, ifName, conf), script)
  {
    if ok {
      AddStrands(sandbox, s, t, held, containerID, ifName, conf);
    } else {
      NothingStrands(sandbox, s, t);
    }
  }

  lemma AddIsSimple(
    sandbox: string -> string, s: Snapshot, t: Snapshot, containerID: string, ifName: string, conf: NetConf, ok: bool)
    requires Added(sandbox, s, t, containerID, ifName, conf, ok)
    requires ok <==> conf.deviceID != "" && sandbox(containerID) in s.ns.live && !HeldLive(s, conf.deviceID)
    ensures View(t) == SimpleStep(sandbox, View(s), Add(containerID, ifName, conf))
  {
    if ok { LiveLocksWith(s.locks, s.ns.live, conf.deviceID, sandbox(containerID)); }
    LiveLocksWithout(s.locks, s.ns.live, conf.deviceID);
  }

  method HandleAdd(m: Manager, containerID: string, ifName: string, conf: NetConf)
    requires m.Valid() && '-' !in containerID
    modifies m`cache, m`locks, m`held, m.faults
    ensures m.Valid()
    ensures CacheFollows(old(Now(m)), Now(m), Add(containerID, ifName, conf))
    ensures HoldersKeep(
      m.sandbox, old(Now(m)), Now(m), Add(containerID, ifName, conf), old(m.faults.script))
    ensures StrandsOnly(
      m.sandbox, old(Now(m)), Now(m), Add(containerID, ifName, conf), old(m.faults.script))
    ensures old(m.faults.script) == [] ==>
      && m.faults.script == []
      && View(Now(m)) == SimpleStep(m.sandbox, View(old(Now(m))), Add(containerID, ifName, conf))
  {
    ghost var s, held := Now(m), m.held;
    var netns := m.sandbox(containerID);
    var ok := m.CmdAdd(containerID, ifName, netns, conf);
    AddFollows(s, Now(m), containerID, ifName, conf);
    AddKeeps(m.sandbox, s, Now(m), held, containerID, ifName, conf, old(m.faults.script), ok);
    if old(m.faults.script) == [] { AddIsSimple(m.sandbox, s, Now(m), containerID, ifName, conf, ok); }
  }

  lemma DelIsSimple(
    sandbox: string -> string, s: Snapshot, t: Snapshot, containerID: string, ifName: string, withNetns: bool)
    requires var cref := CacheRef(containerID, ifName);
      && t.ns == s.ns && t.cache == s.cache - {cref}
      && t.locks ==
         if cref in s.cache && withNetns && sandbox(containerID) in s.ns.live then s.locks - {s.cache[cref].deviceID}
         else s.locks
    ensures View(t) == SimpleStep(sandbox, View(s), Del(containerID, ifName, withNetns))
  {
    var cref := CacheRef(containerID, ifName);
    if cref in s.cache { LiveLocksWithout(s.locks, s.ns.live, s.cache[cref].deviceID); }
  }

  /** A delete that keeps the conf does nothing; one that drops it frees or strands the VF. */
  lemma DelStrands(
    sandbox: string -> string, s: Snapshot, t: Snapshot, held: set<(string, string)>, containerID: string,
    ifName: string, released: bool)
    requires Consistent(sandbox, s.cache, s.locks, s.ns, held) && '-' !in containerID
    requires var cref := CacheRef(containerID, ifName);
      && cref in s.cache
      && (released ==> sandbox(containerID) in s.ns.live)
      && t == Snapshot(
           s.cache - {cref}, if released then s.locks - {s.cache[cref].deviceID} else s.locks, s.ns)
    ensures forall pci :: !IsStranded(sandbox, s, pci) ==>
      (IsStranded(sandbox, t, pci) <==> IsCached(sandbox, s, containerID, ifName, pci) && !released)
    ensures forall pci :: IsStranded(sandbox, s, pci) ==> IsStranded(sandbox, t, pci)
  {
    var cref := CacheRef(containerID, ifName);
    ContainerOfRef(containerID, ifName);
    DropStrands(sandbox, s.cache, s.locks, s.ns, held, cref);
    forall pci
      ensures !IsStranded(sandbox, s, pci) ==>
        (IsStranded(sandbox, t, pci) <==> IsCached(sandbox, s, containerID, ifName, pci) && !released)
      ensures IsStranded(sandbox, s, pci) ==> IsStranded(sandbox, t, pci)
    {
      if pci != s.cache[cref].deviceID || Owner(sandbox, cref) !in s.ns.live {
        if Named(sandbox, s.cache, s.ns, pci) {
          var c :| c in s.cache && s.cache[c].deviceID == pci && Owner(sandbox, c) in s.ns.live;
          assert c in t.cache;
        }
      } else {
        assert cref in s.cache && Named(sandbox, s.cache, s.ns, pci);
      }
    }
  }

  lemma DelKeeps(
    sandbox: string -> string, s: Snapshot, t: Snapshot, held: set<(string, string)>, containerID: string,
    ifName: string, withNetns: bool, script: seq<bool>, step: DelStep)
    requires Consistent(sandbox, s.cache, s.locks, s.ns, held) && '-' !in containerID
    requires var cref := CacheRef(containerID, ifName);
      && (step == NotCached <==> cref !in s.cache)
      && (step == IpamFailed <==> cref in s.cache && s.cache[cref].ipam && !Works(script))
      && (step == Released <==>
            && cref in s.cache && withNetns && sandbox(containerID) in s.ns.live
            && AllWork(script, DelCommands(s.cache[cref])))
      && t == Snapshot(
           if step == IpamFailed then s.cache else s.cache - {cref},
           if step == Released then s.locks - {s.cache[cref].deviceID} else s.locks, s.ns)
    requires forall pci :: IsStranded(sandbox, s, pci) ==>
      !Frees(sandbox, s.cache, s.ns, Del(containerID, ifName, withNetns), pci)
    ensures HoldersKeep(sandbox, s, t, Del(containerID, ifName, withNetns), script)
    ensures StrandsOnly(sandbox, s, t, Del(containerID, ifName, withNetns), script)
  {
    if step in {NotCached, IpamFailed} {
      NothingStrands(sandbox, s, t);
      OneByOne(script);
      FirstAndThen(script, 1, 3);
    } else {
      DelStrands(sandbox, s, t, held, containerID, ifName, step == Released);
    }
  }

  method HandleDel(m: Manager, containerID: string, ifName: string, withNetns: bool)
    requires m.Valid() && '-' !in containerID
    modifies m`cache, m`locks, m`held, m.faults
    ensures m.Valid()
    ensures CacheFollows(old(Now(m)), Now(m), Del(containerID, ifName, withNetns))
    ensures HoldersKeep(
      m.sandbox, old(Now(m)), Now(m), Del(containerID, ifName, withNetns), old(m.faults.script))
    ensures StrandsOnly(
      m.sandbox, old(Now(m)), Now(m), Del(containerID, ifName, withNetns), old(m.faults.script))
    ensures old(m.faults.script) == [] ==>
      && m.faults.script == []
      && View(Now(m)) == SimpleStep(m.sandbox, View(old(Now(m))), Del(containerID, ifName, withNetns))
  {
    ghost var e, s := Del(containerID, ifName, withNetns), Now(m);
    ghost var held := m.held;
    StrandedIsKept(m, e);
    var step := m.CmdDel(containerID, ifName, if withNetns then m.sandbox(containerID) else "");
    DelFollows(s, Now(m), containerID, ifName, withNetns);
    DelKeeps(m.sandbox, s, Now(m), held, containerID, ifName, withNetns, old(m.faults.script), step);
    if old(m.faults.script) == [] { DelIsSimple(m.sandbox, s, Now(m), containerID, ifName, withNetns); }
  }

  lemma FreedByHolder(m: Manager, e: Event, pci: string)
    requires m.Valid() && pci in m.locks && m.locks[pci] in m.ns.live
    requires Frees(m.sandbox, m.cache, m.ns, e, pci)
    ensures DeletesVf(m.sandbox, m.cache, e, m.locks[pci], pci)
  {
    ContainerOfRef(e.containerID, e.ifName);
    assert LockedBy(m.locks, pci, Owner(m.sandbox, CacheRef(e.containerID, e.ifName)));
  }

  /** No event of the run concerns the interface. */
  ghost predicate Untouched(es: seq<Event>, containerID: string, ifName: string) {
    forall e :: e in es ==> !Concerns(e, containerID, ifName)
  }

  /** Confs do not wander: each interface has the one it had, none, or one that an add gave it, and the
      one it had if no add or delete concerned it. */
  ghost predicate ConfsFollow(before: Cache, after: Cache, es: seq<Event>) {
    forall c, i :: '-' !in c ==>
      && (Untouched(es, c, i) ==> ConfOf(after, c, i) == ConfOf(before, c, i))
      && (ConfOf(after, c, i).None? || ConfOf(after, c, i) == ConfOf(before, c, i)
          || Add(c, i, ConfOf(after, c, i).value) in es)
  }

  lemma ConfsFollowOn(s: Snapshot, t: Snapshot, after: Cache, es: seq<Event>)
    requires es != [] && CacheFollows(s, t, es[0]) && ConfsFollow(t.cache, after, es[1..])
    ensures ConfsFollow(s.cache, after, es)
  {
    forall c, i | '-' !in c
      ensures Untouched(es, c, i) ==> ConfOf(after, c, i) == ConfOf(s.cache, c, i)
      ensures ConfOf(after, c, i).None? || ConfOf(after, c, i) == ConfOf(s.cache, c, i)
        || Add(c, i, ConfOf(after, c, i).value) in es
    {
      assert ConfOf(t.cache, c, i) == ConfOf(s.cache, c, i) || Concerns(es[0], c, i);
      if Untouched(es, c, i) { assert es[0] in es && Untouched(es[1..], c, i); }
    }
  }

  /** A lock that was lost in the run although its holder lives on was lost to a delete of the very
      interface whose conf named the VF. */
  ghost predicate LostToDeletes(sandbox: string -> string, s: Snapshot, t: Snapshot, es: seq<Event>) {
    forall pci :: HeldLive(s, pci) && s.locks[pci] in t.ns.live && !LockedBy(t.locks, pci, s.locks[pci]) ==>
      exists e :: e in es && DeletesVf(sandbox, s.cache, e, s.locks[pci], pci)
  }

  lemma LostOnTheWay(
    sandbox: string -> string, s: Snapshot, t: Snapshot, u: Snapshot, es: seq<Event>, script: seq<bool>)
    requires es != [] && CacheFollows(s, t, es[0]) && HoldersKeep(sandbox, s, t, es[0], script)
    requires s.ns.live <= t.ns.live + t.ns.dead && t.ns.dead <= u.ns.dead && u.ns.live !! u.ns.dead
    requires LostToDeletes(sandbox, t, u, es[1..])
    requires forall pci :: HeldLive(s, pci) && Frees(sandbox, s.cache, s.ns, es[0], pci) ==>
      DeletesVf(sandbox, s.cache, es[0], s.locks[pci], pci)
    ensures LostToDeletes(sandbox, s, u, es)
  {
    forall pci | HeldLive(s, pci) && s.locks[pci] in u.ns.live && !LockedBy(u.locks, pci, s.locks[pci])
      ensures exists e :: e in es && DeletesVf(sandbox, s.cache, e, s.locks[pci], pci)
    {
      var netns := s.locks[pci];
      assert netns in t.ns.live;
      if Releases(sandbox, s, es[0], script, pci) {
        assert DeletesVf(sandbox, s.cache, es[0], netns, pci);
      } else {
        assert HeldLive(t, pci) && LockedBy(t.locks, pci, netns);
        var e :| e in es[1..] && DeletesVf(sandbox, t.cache, e, netns, pci);
        NamedBefore(s, t, es[0], e.containerID, e.ifName, pci);
        assert e in es;
      }
    }
  }

  /** Whatever happens, in whatever order and with whatever failures, no VF is given to two live
      namespaces. A lock of a namespace that lives through the run is only lost to a delete that came
      with that namespace and was for the interface the VF was given to, and if the VF is stranded to
      none at all. While nothing fails, leaving stale lock files to be found later is no different from
      freeing VFs at once. */
  method Run(m: Manager, es: seq<Event>)
    requires m.Valid() && PlausibleRun(m.ns, es)
    modifies m, m.faults
    decreases |es|
    ensures m.Valid() && Exclusive(m.held, m.ns)
    ensures old(m.ns.dead) <= m.ns.dead && old(m.ns.live) <= m.ns.live + m.ns.dead
    ensures LostToDeletes(m.sandbox, old(Now(m)), Now(m), es)
    ensures ConfsFollow(old(m.cache), m.cache, es)
    ensures forall pci :: old(IsStranded(m.sandbox, Now(m), pci)) && old(m.locks)[pci] in m.ns.live ==>
      IsStranded(m.sandbox, Now(m), pci) && LockedBy(m.locks, pci, old(m.locks)[pci])
    ensures old(m.faults.script) == [] ==> View(Now(m)) == SimpleRun(m.sandbox, View(old(Now(m))), es)
  {
    if es == [] {
      ConsistentIsExclusive(m.sandbox, m.cache, m.locks, m.ns, m.held);
    } else {
      forall pci | HeldLive(Now(m), pci) && Frees(m.sandbox, m.cache, m.ns, es[0], pci)
        ensures DeletesVf(m.sandbox, m.cache, es[0], m.locks[pci], pci)
      {
        FreedByHolder(m, es[0], pci);
      }
      StrandedIsKept(m, es[0]);
      ghost var s, script := Now(m), m.faults.script;
      Handle(m, es[0]);
      ghost var t := Now(m);
      Run(m, es[1..]);
      ConfsFollowOn(s, t, m.cache, es);
      LostOnTheWay(m.sandbox, s, t, Now(m), es, script);
    }
  }

  /** Nothing frees a stranded VF. */
  lemma StrandedIsKept(m: Manager, e: Event)
    requires m.Valid()
    ensures forall pci :: IsStranded(m.sandbox, Now(m), pci) ==> !Frees(m.sandbox, m.cache, m.ns, e, pci)
  {
    forall pci | IsStranded(m.sandbox, Now(m), pci) ensures !Frees(m.sandbox, m.cache, m.ns, e, pci) {
      FreeableIffNamed(m.sandbox, m.cache, m.locks, m.ns, m.held, pci);
    }
  }
}
