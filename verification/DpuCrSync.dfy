/** Syncing the DataProcessingUnit CRs of one node with the DPUs its daemon manages. */
module DpuCrSync {
  import opened Common
  import opened GoMaps

  const READY: string := "Ready"

  datatype Condition = Condition(
    kind: string, status: string, reason: string, message: string, observedGeneration: int, lastTransition: int)

  datatype Spec = Spec(productName: string, isDpuSide: bool, nodeName: string)

  datatype Cr = Cr(spec: Spec, labels: Strs, conditions: seq<Condition>)

  type Crs = map<string, Cr>

  function FindReady(cs: seq<Condition>): Option<Condition> {
    if cs == [] then None
    else if cs[0].kind == READY then Some(cs[0])
    else FindReady(cs[1..])
  }

  /** The first condition of the kind "Ready". */
  ghost predicate FirstReady(cs: seq<Condition>, i: int) {
    0 <= i < |cs| && cs[i].kind == "Ready" && forall j :: 0 <= j < i ==> cs[j].kind != "Ready"
  }

  predicate SameIgnoringTime(c: Condition, d: Condition) {
    c.(lastTransition := 0) == d.(lastTransition := 0)
  }

  /** Both or neither have a Ready condition, and the first ones are equal but for time. */
  ghost predicate ReadyAlike(cs: seq<Condition>, ds: seq<Condition>) {
    || (forall c :: c in cs + ds ==> c.kind != "Ready")
    || exists i, j :: FirstReady(cs, i) && FirstReady(ds, j) && SameIgnoringTime(cs[i], ds[j])
  }

  predicate ConditionsNeedUpdate(current: seq<Condition>, desired: seq<Condition>) {
    var c, d := FindReady(current), FindReady(desired);
    if d.None? then c.Some?
    else if c.None? then true
    else
      || c.value.status != d.value.status
      || c.value.reason != d.value.reason
      || c.value.message != d.value.message
      || c.value.observedGeneration != d.value.observedGeneration
  }

  lemma {:induction false} FoundIsFirst(cs: seq<Condition>)
    ensures FindReady(cs) == None ==> forall i :: 0 <= i < |cs| ==> cs[i].kind != "Ready"
    ensures FindReady(cs).Some? ==> exists i :: FirstReady(cs, i) && cs[i] == FindReady(cs).value
  {
    if cs == [] {
    } else if cs[0].kind == READY {
      assert FirstReady(cs, 0);
    } else {
      FoundIsFirst(cs[1..]);
      if FindReady(cs).Some? {
        var i :| FirstReady(cs[1..], i) && cs[1..][i] == FindReady(cs).value;
        forall j | 0 <= j < i + 1 ensures cs[j].kind != "Ready" {
          if j > 0 { assert cs[j] == cs[1..][j - 1]; }
        }
        assert FirstReady(cs, i + 1);
      }
    }
  }

  lemma UpdateNeeded(current: seq<Condition>, desired: seq<Condition>)
    ensures !ConditionsNeedUpdate(current, desired) <==> ReadyAlike(current, desired)
  {
    FoundIsFirst(current);
    FoundIsFirst(desired);
    if i :| FirstReady(current, i) && Some(current[i]) == FindReady(current) {
      assert current[i] in current + desired;
      assert forall i' | FirstReady(current, i') :: i' == i;
    }
    if j :| FirstReady(desired, j) && Some(desired[j]) == FindReady(desired) {
      assert desired[j] in current + desired;
      assert forall j' | FirstReady(desired, j') :: j' == j;
    }
  }

  ghost predicate CrInSync(current: Cr, desired: Cr) {
    && current.spec == desired.spec
    && Agrees(current.labels, desired.labels)
    && !ConditionsNeedUpdate(current.conditions, desired.conditions)
  }

  /** This node's CRs are exactly the managed DPUs. */
  ghost predicate Synced(node: string, managed: Crs, crs: Crs) {
    && (forall n :: n in managed ==> n in crs && CrInSync(crs[n], managed[n]))
    && forall n :: n in crs && crs[n].spec.nodeName == node ==> n in managed
  }

  /** What the daemon wants of a CR that exists is there, and labels it does not speak of are as before. */
  ghost predicate AsWanted(was: Cr, desired: Cr, now: Cr) {
    && now.spec == desired.spec
    && (forall k :: k in desired.labels ==> Lookup(now.labels, k) == desired.labels[k])
    && KeepsRest(was.labels, desired.labels, now.labels)
    && ReadyAlike(now.conditions, desired.conditions)
  }

  /** The CRs of managed DPUs that were there still are, with the labels nobody here speaks of. */
  ghost predicate LabelsKept(managed: Crs, crs: Crs, crs': Crs) {
    forall n :: n in managed && n in crs ==> n in crs' && KeepsRest(crs[n].labels, managed[n].labels, crs'[n].labels)
  }

  /** Every managed DPU has its CR: as wanted if it was there before, else new, maybe without status. */
  ghost predicate AllAsWanted(dropsStatus: bool, managed: Crs, crs: Crs, crs': Crs) {
    forall n :: n in managed ==>
      && n in crs'
      && (n in crs ==> AsWanted(crs[n], managed[n], crs'[n]))
      && (n !in crs ==> crs'[n] == Cr(managed[n].spec, managed[n].labels, crs'[n].conditions))
      && (n !in crs ==> crs'[n].conditions == if dropsStatus then [] else managed[n].conditions)
  }

  /** The API server stores a created object without its status when it has a status subresource. */
  function Created(dropsStatus: bool, desired: Cr): Cr {
    if dropsStatus then desired.(conditions := []) else desired
  }

  ghost function Updated(current: Cr, desired: Cr): Cr {
    Cr(desired.spec, Overlay(current.labels, desired.labels),
      if ConditionsNeedUpdate(current.conditions, desired.conditions) then desired.conditions else current.conditions)
  }

  lemma UpdatedIsWanted(current: Cr, desired: Cr)
    ensures AsWanted(current, desired, Updated(current, desired))
    ensures CrInSync(current, desired) <==> Updated(current, desired) == current
  {
    OverlayAgrees(current.labels, desired.labels);
    UpdateNeeded(current.conditions, desired.conditions);
    UpdateNeeded(desired.conditions, desired.conditions);
  }

  /** What one undisturbed sync makes of one name. */
  ghost function SyncedAt(dropsStatus: bool, node: string, managed: Crs, crs: Crs, n: string): Option<Cr> {
    if n in managed then
      Some(if n in crs then Updated(crs[n], managed[n]) else Created(dropsStatus, managed[n]))
    else if n in crs && crs[n].spec.nodeName == node then None
    else Find(crs, n)
  }

  /** Of the managed DPUs, those `done` are synced, and `changed` says if one of them was not before. */
  ghost predicate AllSyncedAt(
    dropsStatus: bool, node: string, managed: Crs, done: set<string>, crs: Crs, crs': Crs, changed: bool)
    requires done <= managed.Keys
  {
    && (forall n :: n in done ==> Find(crs', n) == SyncedAt(dropsStatus, node, managed, crs, n))
    && (changed <==> exists n :: n in done && !WasInSync(managed, crs, n))
  }

  ghost predicate WasInSync(managed: Crs, crs: Crs, n: string)
    requires n in managed
  {
    n in crs && CrInSync(crs[n], managed[n])
  }

  /* ----- a sync under failures ----- */

  /** A sync under way: the CRs, whether a change was counted, and the outcomes still to come. */
  datatype Sync = Sync(crs: Crs, changed: bool, script: seq<bool>)

  ghost function CreateStep(dropsStatus: bool, name: string, desired: Cr, t: Sync): Sync {
    var owned := Rest(t.script);
    if !Works(t.script) then t.(script := owned)
    else if !Works(owned) then t.(script := Rest(owned))
    else
      var created := t.crs[name := Created(dropsStatus, desired)];
      Sync(created, t.changed || Works(Rest(owned)), Rest(Rest(owned)))
  }

  ghost function UpdateStep(name: string, desired: Cr, t: Sync): Sync
    requires name in t.crs
  {
    var current := t.crs[name];
    var needsUpdate := current.spec != desired.spec || !Agrees(current.labels, desired.labels);
    var needsStatus := ConditionsNeedUpdate(current.conditions, desired.conditions);
    if needsUpdate && !Works(t.script) then t.(script := Rest(t.script))
    else
      var script := if needsUpdate then Rest(t.script) else t.script;
      var merged := Cr(desired.spec, Overlay(current.labels, desired.labels), current.conditions);
      var crs := if needsUpdate then t.crs[name := merged] else t.crs;
      if !needsStatus then Sync(crs, t.changed || needsUpdate, script)
      else if !Works(script) then Sync(crs, t.changed, Rest(script))
      else Sync(crs[name := crs[name].(conditions := desired.conditions)], true, Rest(script))
  }

  /** One managed DPU; a failed call ends its turn and is not counted as a change. */
  ghost function SingleStep(dropsStatus: bool, name: string, desired: Cr, t: Sync): Sync {
    var got := t.(script := Rest(t.script));
    if !Works(t.script) then got
    else if name in t.crs then UpdateStep(name, desired, got)
    else CreateStep(dropsStatus, name, desired, got)
  }

  function OrphanStep(name: string, t: Sync): Sync {
    if Works(t.script) then Sync(t.crs - {name}, true, Rest(t.script)) else t.(script := Rest(t.script))
  }

  ghost predicate Lists(order: seq<string>, names: set<string>) {
    && (forall n :: n in order <==> n in names)
    && forall i, j :: 0 <= i < j < |order| ==> order[i] != order[j]
  }

  ghost function ManagedSteps(dropsStatus: bool, managed: Crs, order: seq<string>, t: Sync): Sync {
    if order == [] then t
    else
      var init, n := order[..|order| - 1], order[|order| - 1];
      var before := ManagedSteps(dropsStatus, managed, init, t);
      if n in managed then SingleStep(dropsStatus, n, managed[n], before) else before
  }

  function OrphanSteps(managed: Crs, order: seq<string>, t: Sync): Sync {
    if order == [] then t
    else
      var init, n := order[..|order| - 1], order[|order| - 1];
      var before := OrphanSteps(managed, init, t);
      if n in managed then before else OrphanStep(n, before)
  }

  function OfNode(node: string, crs: Crs): Crs {
    map n | n in crs && crs[n].spec.nodeName == node :: crs[n]
  }

  /** A whole sync after the list succeeded, walking the two maps in those orders. */
  ghost function SyncSteps(
    dropsStatus: bool, managed: Crs, order: seq<string>, orphans: seq<string>, crs: Crs, script: seq<bool>): Sync
  {
    OrphanSteps(managed, orphans, ManagedSteps(dropsStatus, managed, order, Sync(crs, false, script)))
  }

  /** The loop over the managed DPUs with `todo` still to come: they were taken in `order`, nobody else's
      CRs changed, and without errors those done are synced. */
  ghost predicate SyncedUpTo(
    dropsStatus: bool, node: string, managed: Crs, todo: set<string>, order: seq<string>, errors: nat,
    start: Sync, now: Sync)
  {
    && Lists(order, managed.Keys - todo)
    && now == ManagedSteps(dropsStatus, managed, order, start)
    && (forall n :: n !in managed || n in todo ==> Find(now.crs, n) == Find(start.crs, n))
    && (errors == 0 ==>
          AllSyncedAt(dropsStatus, node, managed, managed.Keys - todo, start.crs, now.crs, now.changed))
  }

  lemma OneMoreSynced(
    dropsStatus: bool, node: string, managed: Crs, todo: set<string>, order: seq<string>, errors: nat,
    start: Sync, before: Sync, now: Sync, n: string, ok: bool, updated: bool)
    requires SyncedUpTo(dropsStatus, node, managed, todo, order, errors, start, before)
    requires n in todo && todo <= managed.Keys
    requires now == SingleStep(dropsStatus, n, managed[n], before) && now.changed == (before.changed || updated)
    requires forall m :: m != n ==> Find(now.crs, m) == Find(before.crs, m)
    requires ok ==> var was := Find(before.crs, n);
      && Find(now.crs, n) ==
           Some(if was.Some? then Updated(was.value, managed[n]) else Created(dropsStatus, managed[n]))
      && (updated <==> !WasInSync(managed, before.crs, n))
    ensures SyncedUpTo(
      dropsStatus, node, managed, todo - {n}, order + [n], if ok then errors else errors + 1, start, now)
  {
    assert (order + [n])[..|order|] == order;
    var done := managed.Keys - todo;
    assert managed.Keys - (todo - {n}) == done + {n};
    ListsOneMore(order, done, n);
    assert Find(before.crs, n) == Find(start.crs, n);
    if errors == 0 && ok {
      OneMoreSyncedAt(dropsStatus, node, managed, done, start.crs, before.crs, now.crs, before.changed, updated, n);
    }
  }

  lemma ListsOneMore(order: seq<string>, names: set<string>, n: string)
    requires Lists(order, names) && n !in names
    ensures Lists(order + [n], names + {n})
  {
  }

  lemma OneMoreSyncedAt(
    dropsStatus: bool, node: string, managed: Crs, done: set<string>, crs: Crs, crs1: Crs, crs2: Crs,
    changed: bool, updated: bool, n: string)
    requires done <= managed.Keys && n in managed && n !in done
    requires AllSyncedAt(dropsStatus, node, managed, done, crs, crs1, changed)
    requires forall m :: m != n ==> Find(crs2, m) == Find(crs1, m)
    requires Find(crs2, n) == SyncedAt(dropsStatus, node, managed, crs, n)
    requires updated <==> !WasInSync(managed, crs, n)
    ensures AllSyncedAt(dropsStatus, node, managed, done + {n}, crs, crs2, changed || updated)
  {
    if changed {
      var m :| m in done && !WasInSync(managed, crs, m);
      assert m in done + {n};
    }
  }

  /** A sync may have gone from those CRs and outcomes to `t`. */
  ghost predicate Goes(node: string, dropsStatus: bool, managed: Crs, crs: Crs, script: seq<bool>, t: Sync) {
    exists order, orphans ::
      Lists(order, managed.Keys) && Lists(orphans, OfNode(node, crs).Keys)
      && t == SyncSteps(dropsStatus, managed, order, orphans, crs, script)
  }

  lemma MadeSteps(
    node: string, dropsStatus: bool, managed: Crs, order: seq<string>, orphans: seq<string>, crs: Crs,
    script: seq<bool>, between: Sync, t: Sync)
    requires Lists(order, managed.Keys) && Lists(orphans, OfNode(node, crs).Keys)
    requires between == ManagedSteps(dropsStatus, managed, order, Sync(crs, false, script))
    requires t == OrphanSteps(managed, orphans, between)
    ensures Goes(node, dropsStatus, managed, crs, script, t)
  {
    assert t == SyncSteps(dropsStatus, managed, order, orphans, crs, script);
  }

  lemma LabelsKeptByStep(managed: Crs, crs: Crs, crs1: Crs, crs2: Crs, n: string)
    requires LabelsKept(managed, crs, crs1) && n in managed
    requires forall m :: m != n ==> Find(crs2, m) == Find(crs1, m)
    requires n in crs1 ==> n in crs2 && KeepsRest(crs1[n].labels, managed[n].labels, crs2[n].labels)
    ensures LabelsKept(managed, crs, crs2)
  {
    forall m | m in managed && m in crs
      ensures m in crs2 && KeepsRest(crs[m].labels, managed[m].labels, crs2[m].labels)
    {
      if m != n { assert Find(crs2, m) == Find(crs1, m); }
    }
  }

  predicate AllFail(n: nat, script: seq<bool>) {
    n <= |script| && forall i :: 0 <= i < n ==> !script[i]
  }

  class Api {
    var crs: Crs
    const dropsStatus: bool
    const faults: Faults

    constructor (crs: Crs, dropsStatus: bool, faults: Faults)
      ensures this.crs == crs && this.dropsStatus == dropsStatus && this.faults == faults
    {
      this.crs, this.dropsStatus, this.faults := crs, dropsStatus, faults;
    }
  }

  class Daemon {
    const api: Api
    const nodeName: string
    var managed: Crs
    var isReady: bool

    constructor (api: Api, nodeName: string, managed: Crs)
      ensures this.api == api && this.nodeName == nodeName && this.managed == managed && !isReady
    {
      this.api, this.nodeName, this.managed, isReady := api, nodeName, managed, false;
    }

    ghost predicate Owns()
      reads this
    {
      forall n :: n in managed ==> managed[n].spec.nodeName == nodeName
    }

    /** On the CR itself labels that are not desired stay, whatever fails. */
    method SyncSingle(name: string, desired: Cr) returns (ok: bool, updated: bool)
      modifies api`crs, api.faults
      ensures name in old(api.crs) ==>
        && name in api.crs
        && KeepsRest(old(api.crs)[name].labels, desired.labels, api.crs[name].labels)
        && (ok ==> AsWanted(old(api.crs)[name], desired, api.crs[name]))
        && (updated <==> ok && api.crs != old(api.crs))
      ensures forall n :: n != name ==> Find(api.crs, n) == old(Find(api.crs, n))
      ensures ok ==> var was := old(Find(api.crs, name));
        Find(api.crs, name) == Some(
          if was.Some? then Updated(was.value, desired) else Created(api.dropsStatus, desired))
      ensures ok ==> (updated <==> !(name in old(api.crs) && CrInSync(old(api.crs)[name], desired)))
      ensures !ok ==> !updated
      ensures old(api.faults.script) == [] ==> ok && api.faults.script == []
      ensures forall changed ::
        SingleStep(api.dropsStatus, name, desired, Sync(old(api.crs), changed, old(api.faults.script)))
        == Sync(api.crs, changed || updated, api.faults.script)
    {
      updated := false;
      ok := api.faults.Next();  // get
      if !ok { return; }
      if name !in api.crs {
        ok := api.faults.Next();  // owner reference
        if !ok { return; }
        ok := api.faults.Next();
        if !ok { return; }
        var copy := Created(api.dropsStatus, desired);  // the response overwrites the copy
        api.crs := api.crs[name := copy];
        ok := api.faults.Next();
        if !ok { return; }
        api.crs := api.crs[name := api.crs[name].(conditions := copy.conditions)];
        return true, true;
      }
      UpdatedIsWanted(api.crs[name], desired);
      ok, updated := UpdateExisting(name, desired);
    }

    /** The rest of a sync of one CR, which is there already. */
    method UpdateExisting(name: string, desired: Cr) returns (ok: bool, updated: bool)
      requires name in api.crs
      modifies api`crs, api.faults
      ensures name in api.crs && api.crs == old(api.crs)[name := api.crs[name]]
      ensures KeepsRest(old(api.crs)[name].labels, desired.labels, api.crs[name].labels)
      ensures ok ==> api.crs[name] == Updated(old(api.crs)[name], desired)
      ensures updated <==> ok && !CrInSync(old(api.crs)[name], desired)
      ensures old(api.faults.script) == [] ==> ok && api.faults.script == []
      ensures forall changed ::
        UpdateStep(name, desired, Sync(old(api.crs), changed, old(api.faults.script)))
        == Sync(api.crs, changed || updated, api.faults.script)
    {
      updated := false;
      ghost var before := api.crs;
      var current := api.crs[name];
      var needsSpec := current.spec != desired.spec;
      var labels, needsMetadata := MergeInto(current.labels, desired.labels);
      OverlayAgrees(current.labels, desired.labels);
      var needsStatus := ConditionsNeedUpdate(current.conditions, desired.conditions);
      ok := true;
      if needsSpec || needsMetadata {
        ok := api.faults.Next();
        if !ok { return; }
        api.crs := api.crs[name := Cr(desired.spec, labels, current.conditions)];
      }
      if needsStatus {
        ok := api.faults.Next();
        if !ok { return; }
        api.crs := api.crs[name := api.crs[name].(conditions := desired.conditions)];
      }
      assert api.crs == before[name := Updated(current, desired)];
      return true, needsSpec || needsMetadata || needsStatus;
    }

    /** Errors on single CRs are logged and counted as no change; `errors` is how many there were.
        `ok` is false when the CRs could not be listed. */
    method SyncDpuCRs() returns (ok: bool, changed: bool, ghost errors: nat)
      requires Owns()
      modifies api`crs, api.faults
      ensures forall n :: n !in managed && (n in old(api.crs) ==> old(api.crs)[n].spec.nodeName != nodeName) ==>
        Find(api.crs, n) == old(Find(api.crs, n))
      ensures ok && errors == 0 ==>
        && (forall n :: Find(api.crs, n) == SyncedAt(api.dropsStatus, nodeName, managed, old(api.crs), n))
        && (changed <==> !Synced(nodeName, managed, old(api.crs)))
        && (changed <==> api.crs != old(api.crs))
        && AllAsWanted(api.dropsStatus, managed, old(api.crs), api.crs)
        && forall n :: n in api.crs && api.crs[n].spec.nodeName == nodeName ==> n in managed
      ensures LabelsKept(managed, old(api.crs), api.crs)
      ensures !ok ==> api.crs == old(api.crs) && !changed
      ensures ok == Works(old(api.faults.script))
      ensures ok ==>
        Goes(nodeName, api.dropsStatus, managed, old(api.crs), Rest(old(api.faults.script)),
          Sync(api.crs, changed, api.faults.script))
      ensures old(api.faults.script) == [] ==> ok && errors == 0 && api.faults.script == []
    {
      changed, errors := false, 0;
      ok := api.faults.Next();
      if !ok { return; }
      var existing := OfNode(nodeName, api.crs);
      ghost var before, order, orphans := api.crs, [], [];
      changed, errors, order := SyncManaged();
      ghost var between := Sync(api.crs, changed, api.faults.script);
      var removed;
      ghost var failed;
      removed, failed, orphans := RemoveOrphans(existing);
      if errors == 0 && failed == 0 {
        HalvesMakeSync(api.dropsStatus, nodeName, managed, before, between.crs, api.crs, changed, removed);
        SyncDoesIt(api.dropsStatus, nodeName, managed, before, api.crs);
      }
      LabelsStayKept(managed, before, between.crs, api.crs);
      MadeSteps(nodeName, api.dropsStatus, managed, order, orphans, before, Rest(old(api.faults.script)),
        between, Sync(api.crs, changed || removed, api.faults.script));
      changed, errors := changed || removed, errors + failed;
    }

    method SyncManaged() returns (changed: bool, ghost errors: nat, ghost order: seq<string>)
      modifies api`crs, api.faults
      ensures forall n :: n !in managed ==> Find(api.crs, n) == old(Find(api.crs, n))
      ensures errors == 0 ==>
        AllSyncedAt(api.dropsStatus, nodeName, managed, managed.Keys, old(api.crs), api.crs, changed)
      ensures LabelsKept(managed, old(api.crs), api.crs)
      ensures old(api.faults.script) == [] ==> errors == 0 && api.faults.script == []
      ensures Lists(order, managed.Keys)
      ensures ManagedSteps(api.dropsStatus, managed, order, Sync(old(api.crs), false, old(api.faults.script)))
        == Sync(api.crs, changed, api.faults.script)
    {
      changed, errors, order := false, 0, [];
      var todo := managed.Keys;
      ghost var start, now := Sync(api.crs, false, api.faults.script), Sync(api.crs, false, api.faults.script);
      while todo != {}
        invariant todo <= managed.Keys && now == Sync(api.crs, changed, api.faults.script)
        invariant SyncedUpTo(api.dropsStatus, nodeName, managed, todo, order, errors, start, now)
        invariant LabelsKept(managed, start.crs, now.crs)
        invariant start.script == [] ==> errors == 0 && now.script == []
        decreases todo
      {
        var n :| n in todo;
        ghost var before := now;
        var ok, updated := SyncSingle(n, managed[n]);
        if updated { changed := true; }
        now := Sync(api.crs, changed, api.faults.script);
        OneMoreSynced(api.dropsStatus, nodeName, managed, todo, order, errors, start, before, now, n, ok, updated);
        LabelsKeptByStep(managed, start.crs, before.crs, now.crs, n);
        todo, order := todo - {n}, order + [n];
        if !ok { errors := errors + 1; }
      }
    }

    method RemoveOrphans(existing: Crs) returns (removed: bool, ghost failed: nat, ghost order: seq<string>)
      modifies api`crs, api.faults
      ensures forall n :: n in managed || n !in existing ==> Find(api.crs, n) == old(Find(api.crs, n))
      ensures failed == 0 ==> forall n :: n in existing && n !in managed ==> n !in api.crs
      ensures failed == 0 ==> (removed <==> exists n :: n in existing && n !in managed)
      ensures old(api.faults.script) == [] ==> failed == 0 && api.faults.script == []
      ensures Lists(order, existing.Keys)
      ensures forall changed ::
        OrphanSteps(managed, order, Sync(old(api.crs), changed, old(api.faults.script)))
        == Sync(api.crs, changed || removed, api.faults.script)
    {
      removed, failed, order := false, 0, [];
      var todo := existing.Keys;
      while todo != {}
        invariant todo <= existing.Keys
        invariant forall n :: n in managed || n !in existing ==> Find(api.crs, n) == old(Find(api.crs, n))
        invariant failed == 0 ==> forall n :: n in existing && n !in managed && n !in todo ==> n !in api.crs
        invariant failed == 0 ==> (removed <==> exists n :: n in existing && n !in managed && n !in todo)
        invariant old(api.faults.script) == [] ==> failed == 0 && api.faults.script == []
        invariant Lists(order, existing.Keys - todo)
        invariant forall changed ::
          OrphanSteps(managed, order, Sync(old(api.crs), changed, old(api.faults.script)))
          == Sync(api.crs, changed || removed, api.faults.script)
        decreases todo
      {
        var n :| n in todo;
        todo := todo - {n};
        assert (order + [n])[..|order|] == order;
        order := order + [n];
        if n !in managed {
          var ok := api.faults.Next();
          if ok {
            api.crs := api.crs - {n};
            removed := true;
          } else {
            failed := failed + 1;
          }
        }
      }
    }

    /** The end of a serve tick: the daemon gets ready on a sync that changed nothing. */
    method SyncAndMarkReady() returns (ok: bool, ghost errors: nat)
      requires Owns()
      modifies this`isReady, api`crs, api.faults
      ensures isReady && !old(isReady) && errors == 0 ==> Synced(nodeName, managed, api.crs) && api.crs == old(api.crs)
      ensures old(isReady) ==> isReady
      ensures Synced(nodeName, managed, old(api.crs)) ==> api.crs == old(api.crs) && (ok ==> isReady)
      ensures Works(old(api.faults.script))
        && AllFail(|managed| + |OfNode(nodeName, old(api.crs))|, Rest(old(api.faults.script)))
        ==> isReady && api.crs == old(api.crs)
      ensures ok && errors == 0 ==> (isReady <==> old(isReady) || Synced(nodeName, managed, old(api.crs)))
      ensures ok && errors == 0 ==> forall n ::
        Find(api.crs, n) == SyncedAt(api.dropsStatus, nodeName, managed, old(api.crs), n)
      ensures old(api.faults.script) == [] ==> ok && errors == 0 && api.faults.script == []
    {
      var changed;
      ok, changed, errors := SyncDpuCRs();
      if !ok { return; }
      if !changed { isReady := true; }
      ghost var script, t := Rest(old(api.faults.script)), Sync(api.crs, changed, api.faults.script);
      if Synced(nodeName, managed, old(api.crs)) {
        SyncedIsKept(nodeName, api.dropsStatus, managed, old(api.crs), script, t);
      }
      if AllFail(|managed| + |OfNode(nodeName, old(api.crs))|, script) {
        FailuresCountAsNoChange(nodeName, api.dropsStatus, managed, old(api.crs), script, t);
      }
      if errors == 0 && !changed {
        SyncOfSynced(api.dropsStatus, nodeName, managed, old(api.crs), api.crs);
      }
    }

    /** At most two syncs with a working API server bring the CRs in line, one if created objects keep
        their status, and the third finds nothing to do. */
    method SyncThrice() returns (first: bool, second: bool, third: bool)
      requires Owns() && api.faults.script == []
      modifies api`crs, api.faults
      ensures Synced(nodeName, managed, api.crs) && !third
      ensures !api.dropsStatus ==> !second
      ensures !first ==> api.crs == old(api.crs)
    {
      ghost var crs0 := api.crs;
      var ok;
      ghost var errors;
      ok, first, errors := SyncDpuCRs();
      ghost var crs1 := api.crs;
      ok, second, errors := SyncDpuCRs();
      SyncTwice(api.dropsStatus, nodeName, managed, crs0, crs1, api.crs);
      ghost var crs2 := api.crs;
      if !first { SyncOfSynced(api.dropsStatus, nodeName, managed, crs0, crs1); }
      if !second { SyncOfSynced(api.dropsStatus, nodeName, managed, crs1, crs2); }
      ok, third, errors := SyncDpuCRs();
      SyncOfSynced(api.dropsStatus, nodeName, managed, crs2, api.crs);
    }

    /** Shutting down forgets the managed DPUs and syncs once more. */
    method Shutdown() returns (ok: bool, ghost errors: nat)
      modifies this`managed, api`crs, api.faults
      ensures managed == map[]
      ensures ok && errors == 0 ==>
        && (forall n :: n in api.crs <==> n in old(api.crs) && old(api.crs)[n].spec.nodeName != nodeName)
        && (forall n :: n in api.crs ==> api.crs[n] == old(api.crs)[n])
      ensures old(api.faults.script) == [] ==> ok && errors == 0
    {
      managed := map[];
      var changed;
      ok, changed, errors := SyncDpuCRs();
      forall n | ok && errors == 0
        ensures n in api.crs <==> n in old(api.crs) && old(api.crs)[n].spec.nodeName != nodeName
        ensures n in api.crs ==> api.crs[n] == old(api.crs)[n]
      {
        assert Find(api.crs, n) == SyncedAt(api.dropsStatus, nodeName, map[], old(api.crs), n);
      }
    }
  }

  /** Syncing the managed CRs and then removing this node's others is the whole sync. */
  lemma HalvesMakeSync(
    dropsStatus: bool, node: string, managed: Crs, crs: Crs, crs1: Crs, crs2: Crs, changed: bool, removed: bool)
    requires AllSyncedAt(dropsStatus, node, managed, managed.Keys, crs, crs1, changed)
    requires forall n :: n !in managed ==> Find(crs1, n) == Find(crs, n)
    requires forall n :: n in managed || n !in crs || crs[n].spec.nodeName != node ==> Find(crs2, n) == Find(crs1, n)
    requires forall n :: n !in managed && n in crs && crs[n].spec.nodeName == node ==> n !in crs2
    requires removed <==> exists n :: n in crs && crs[n].spec.nodeName == node && n !in managed
    ensures forall n :: Find(crs2, n) == SyncedAt(dropsStatus, node, managed, crs, n)
    ensures changed || removed <==> !Synced(node, managed, crs)
  {
  }

  /** A whole sync does what is wanted, and every change shows. */
  lemma SyncDoesIt(dropsStatus: bool, node: string, managed: Crs, crs: Crs, crs': Crs)
    requires forall n :: n in managed ==> managed[n].spec.nodeName == node
    requires forall n :: Find(crs', n) == SyncedAt(dropsStatus, node, managed, crs, n)
    ensures AllAsWanted(dropsStatus, managed, crs, crs')
    ensures forall n :: n in crs' && crs'[n].spec.nodeName == node ==> n in managed
    ensures Synced(node, managed, crs) <==> crs' == crs
  {
    forall n
      ensures n in managed && n in crs ==>
        AsWanted(crs[n], managed[n], Updated(crs[n], managed[n]))
        && (CrInSync(crs[n], managed[n]) <==> Updated(crs[n], managed[n]) == crs[n])
      ensures n in crs' && crs'[n].spec.nodeName == node ==> n in managed
    {
      assert Find(crs', n) == SyncedAt(dropsStatus, node, managed, crs, n);
      if n in managed && n in crs { UpdatedIsWanted(crs[n], managed[n]); }
    }
    forall n | n in managed
      ensures n in crs'
      ensures crs'[n] == if n in crs then Updated(crs[n], managed[n]) else Created(dropsStatus, managed[n])
    {
      assert Find(crs', n) == SyncedAt(dropsStatus, node, managed, crs, n);
    }
    if Synced(node, managed, crs) {
      SyncOfSynced(dropsStatus, node, managed, crs, crs');
    } else if crs' == crs {
      forall n | n in managed ensures n in crs && CrInSync(crs[n], managed[n]) {
        assert Find(crs', n) == SyncedAt(dropsStatus, node, managed, crs, n);
      }
    }
  }

  lemma LabelsStayKept(managed: Crs, crs: Crs, crs1: Crs, crs2: Crs)
    requires LabelsKept(managed, crs, crs1) && forall n :: n in managed ==> Find(crs2, n) == Find(crs1, n)
    ensures LabelsKept(managed, crs, crs2)
  {
    forall n | n in managed && n in crs
      ensures n in crs2 && KeepsRest(crs[n].labels, managed[n].labels, crs2[n].labels)
    {
      assert Find(crs2, n) == Find(crs1, n);
    }
  }

  /** Syncing synced CRs changes nothing. */
  lemma SyncOfSynced(dropsStatus: bool, node: string, managed: Crs, crs: Crs, crs': Crs)
    requires Synced(node, managed, crs)
    requires forall n :: Find(crs', n) == SyncedAt(dropsStatus, node, managed, crs, n)
    ensures crs' == crs
  {
    forall n ensures Find(crs', n) == Find(crs, n) {
      assert Find(crs', n) == SyncedAt(dropsStatus, node, managed, crs, n);
      if n in managed { OverlayAgrees(crs[n].labels, managed[n].labels); }
    }
    SameMap(crs', crs);
  }

  lemma SyncTwice(dropsStatus: bool, node: string, managed: Crs, crs: Crs, crs1: Crs, crs2: Crs)
    requires forall n :: n in managed ==> managed[n].spec.nodeName == node
    requires forall n :: Find(crs1, n) == SyncedAt(dropsStatus, node, managed, crs, n)
    requires forall n :: Find(crs2, n) == SyncedAt(dropsStatus, node, managed, crs1, n)
    ensures Synced(node, managed, crs2)
    ensures !dropsStatus ==> Synced(node, managed, crs1)
  {
    forall n
      ensures n in managed ==> n in crs2 && CrInSync(crs2[n], managed[n])
      ensures !dropsStatus && n in managed ==> n in crs1 && CrInSync(crs1[n], managed[n])
      ensures n in crs1 && crs1[n].spec.nodeName == node ==> n in managed
      ensures n in crs2 && crs2[n].spec.nodeName == node ==> n in managed
    {
      assert Find(crs1, n) == SyncedAt(dropsStatus, node, managed, crs, n);
      assert Find(crs2, n) == SyncedAt(dropsStatus, node, managed, crs1, n);
      if n in managed {
        if n in crs { OverlayAgrees(crs[n].labels, managed[n].labels); }
        OverlayAgrees(crs1[n].labels, managed[n].labels);
        OverlayAgrees(managed[n].labels, managed[n].labels);
      }
    }
  }

  lemma {:induction false} ListedLength(order: seq<string>, names: set<string>)
    requires Lists(order, names)
    ensures |order| == |names|
  {
    if order == [] {
      assert names == {};
    } else {
      var init, n := order[..|order| - 1], order[|order| - 1];
      assert order == init + [n];
      ListedLength(init, names - {n});
    }
  }

  lemma {:induction false} SomeListing(names: set<string>) returns (order: seq<string>)
    ensures Lists(order, names)
  {
    if names == {} {
      order := [];
    } else {
      var n :| n in names;
      order := SomeListing(names - {n});
      order := order + [n];
    }
  }

  lemma {:induction false} ManagedStepsFail(dropsStatus: bool, managed: Crs, order: seq<string>, t: Sync)
    requires forall n :: n in order ==> n in managed
    requires AllFail(|order|, t.script)
    ensures ManagedSteps(dropsStatus, managed, order, t) == t.(script := t.script[|order|..])
  {
    if order == [] {
    } else {
      ManagedStepsFail(dropsStatus, managed, order[..|order| - 1], t);
    }
  }

  ghost function OrphansIn(managed: Crs, order: seq<string>): (count: nat)
    ensures count <= |order|
  {
    if order == [] then 0
    else OrphansIn(managed, order[..|order| - 1]) + if order[|order| - 1] in managed then 0 else 1
  }

  lemma {:induction false} OrphanStepsFail(managed: Crs, order: seq<string>, t: Sync)
    requires AllFail(|order|, t.script)
    ensures OrphanSteps(managed, order, t) == t.(script := t.script[OrphansIn(managed, order)..])
  {
    if order == [] {
    } else {
      OrphanStepsFail(managed, order[..|order| - 1], t);
    }
  }

  /** A sync of which everything but the list fails counts as no change, whatever the CRs are. */
  lemma FailuresCountAsNoChange(node: string, dropsStatus: bool, managed: Crs, crs: Crs, script: seq<bool>, t: Sync)
    requires AllFail(|managed| + |OfNode(node, crs)|, script)
    requires Goes(node, dropsStatus, managed, crs, script, t)
    ensures t.crs == crs && !t.changed
  {
    var order, orphans :| Lists(order, managed.Keys) && Lists(orphans, OfNode(node, crs).Keys)
      && t == SyncSteps(dropsStatus, managed, order, orphans, crs, script);
    ListedLength(order, managed.Keys);
    ListedLength(orphans, OfNode(node, crs).Keys);
    ManagedStepsFail(dropsStatus, managed, order, Sync(crs, false, script));
    OrphanStepsFail(managed, orphans, Sync(crs, false, script[|order|..]));
  }

  lemma {:induction false} SyncedSteps(dropsStatus: bool, managed: Crs, order: seq<string>, t: Sync)
    requires forall n :: n in managed ==> n in t.crs && CrInSync(t.crs[n], managed[n])
    ensures var u := ManagedSteps(dropsStatus, managed, order, t); u.crs == t.crs && u.changed == t.changed
  {
    if order == [] {
    } else {
      SyncedSteps(dropsStatus, managed, order[..|order| - 1], t);
    }
  }

  lemma {:induction false} NoOrphanSteps(managed: Crs, order: seq<string>, t: Sync)
    requires forall n :: n in order ==> n in managed
    ensures OrphanSteps(managed, order, t) == t
  {
    if order == [] {
    } else {
      NoOrphanSteps(managed, order[..|order| - 1], t);
    }
  }

  /** Synced CRs are not touched, whatever fails. */
  lemma SyncedIsKept(node: string, dropsStatus: bool, managed: Crs, crs: Crs, script: seq<bool>, t: Sync)
    requires Synced(node, managed, crs) && Goes(node, dropsStatus, managed, crs, script, t)
    ensures t.crs == crs && !t.changed
  {
    var order, orphans :| Lists(order, managed.Keys) && Lists(orphans, OfNode(node, crs).Keys)
      && t == SyncSteps(dropsStatus, managed, order, orphans, crs, script);
    SyncedSteps(dropsStatus, managed, order, Sync(crs, false, script));
    NoOrphanSteps(managed, orphans, ManagedSteps(dropsStatus, managed, order, Sync(crs, false, script)));
  }

  /** Whatever fails, a sync after which the daemon gets ready leaves the CRs synced. */
  ghost predicate ReadyIsTruthful(node: string, dropsStatus: bool, managed: Crs, crs: Crs) {
    forall script, t :: Goes(node, dropsStatus, managed, crs, script, t) && !t.changed ==> Synced(node, managed, t.crs)
  }

  function Failing(n: nat): (script: seq<bool>)
    ensures |script| == n && AllFail(n, script)
  {
    if n == 0 then [] else Failing(n - 1) + [false]
  }

  /** Readiness can be trusted under every pattern of failures exactly when the CRs were synced
      before. */
  lemma ReadyIsTruthfulIffSynced(node: string, dropsStatus: bool, managed: Crs, crs: Crs)
    ensures ReadyIsTruthful(node, dropsStatus, managed, crs) <==> Synced(node, managed, crs)
  {
    if Synced(node, managed, crs) {
      forall script, t | Goes(node, dropsStatus, managed, crs, script, t) ensures Synced(node, managed, t.crs) {
        SyncedIsKept(node, dropsStatus, managed, crs, script, t);
      }
    } else {
      var order := SomeListing(managed.Keys);
      var orphans := SomeListing(OfNode(node, crs).Keys);
      var script := Failing(|managed| + |OfNode(node, crs)|);
      var t := SyncSteps(dropsStatus, managed, order, orphans, crs, script);
      assert Goes(node, dropsStatus, managed, crs, script, t);
      FailuresCountAsNoChange(node, dropsStatus, managed, crs, script, t);
    }
  }

  /** A sync that fails on every managed CR counts as no change: the daemon gets ready with none of
      its CRs in the cluster. */
  method ReadyWithoutCr() returns (d: Daemon)
    ensures d.isReady && d.managed.Keys == {"dpu"} && d.api.crs == map[]
    ensures !Synced(d.nodeName, d.managed, d.api.crs)
  {
    var faults := new Faults([true, false]);
    var api := new Api(map[], true, faults);
    d := new Daemon(api, "node", map["dpu" := Cr(Spec("product", true, "node"), map[], [])]);
    assert |d.managed| == 1 && OfNode("node", map[]) == map[];
    var ok, errors := d.SyncAndMarkReady();
    assert "dpu" in d.managed;
  }
}
