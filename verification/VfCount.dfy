/** The VF-count pipeline: each DataProcessingUnitConfig writes annotations on the DPUs it selects,
    and the daemon reads one VF count, or a conflict, off the annotations of a DPU. */
module VfCount {
  import opened Common
  import opened GoMaps
  import opened Decimal
  import opened Strings

  const CONFIG_PREFIX: string := "dpu.config.openshift.io/config-"
  const VF_PREFIX: string := "dpu.config.openshift.io/vf-count/"

  datatype Config = Config(namespace: string, name: string, selector: Strs -> bool, vfCount: Option<int>)

  datatype Dpu = Dpu(name: string, labels: Strs, annotations: Strs)

  function Dotted(namespace: string, name: string): string {
    namespace + "." + name
  }

  function AnnotationKey(c: Config): string { CONFIG_PREFIX + Dotted(c.namespace, c.name) }

  function VfKey(c: Config): string { VF_PREFIX + Dotted(c.namespace, c.name) }

  function LegacyAnnotationKey(c: Config): string { CONFIG_PREFIX + c.name }

  function LegacyVfKey(c: Config): string { VF_PREFIX + c.name }

  /* ----- the controller ----- */

  /** The four keys a config touches. */
  datatype Keys = Keys(annotation: string, legacyAnnotation: string, vf: string, legacyVf: string)

  function KeysOf(c: Config): Keys {
    Keys(AnnotationKey(c), LegacyAnnotationKey(c), VfKey(c), LegacyVfKey(c))
  }

  function VfValue(c: Config): Option<string> {
    if c.vfCount.Some? then Some(PrintInt(c.vfCount.value)) else None
  }

  /** What one reconcile makes of one key. A selected DPU without VF count loses the legacy key only
      when there is no current one to lose. */
  function AnnotatedAt(keys: Keys, matches: bool, vfValue: Option<string>, a: Strs, k: string): Option<string> {
    if k == keys.annotation then (if matches then Some("true") else None)
    else if k == keys.legacyAnnotation then None
    else if k == keys.vf then (if matches then vfValue else None)
    else if k == keys.legacyVf && !(matches && vfValue.None? && keys.vf in a) then None
    else Find(a, k)
  }

  ghost predicate Reconciled(c: Config, labels: Strs, a: Strs, b: Strs) {
    forall k :: Find(b, k) == AnnotatedAt(KeysOf(c), c.selector(labels), VfValue(c), a, k)
  }

  /** A reconcile of `c` as the API user sees it: the config's mark is on the DPUs it selects and on no
      others, its VF count on those if it sets one, and its undotted keys of old go. The old VF key stays
      only where the config selects without a count and there was a dotted one to remove. */
  ghost predicate MarksDpu(c: Config, labels: Strs, a: Strs, b: Strs) {
    var dotted, selected := c.namespace + "." + c.name, c.selector(labels);
    var mark, oldMark := "dpu.config.openshift.io/config-" + dotted, "dpu.config.openshift.io/config-" + c.name;
    var vf, oldVf := "dpu.config.openshift.io/vf-count/" + dotted, "dpu.config.openshift.io/vf-count/" + c.name;
    && Find(b, mark) == (if selected then Some("true") else None)
    && oldMark !in b
    && Find(b, vf) == (if selected && c.vfCount.Some? then Some(PrintInt(c.vfCount.value)) else None)
    && Find(b, oldVf) == (if selected && c.vfCount.None? && vf in a then Find(a, oldVf) else None)
    && forall k :: k !in {mark, oldMark, vf, oldVf} ==> Find(b, k) == Find(a, k)
  }

  lemma ReconciledIsMarked(c: Config, labels: Strs, a: Strs, b: Strs)
    ensures Reconciled(c, labels, a, b) <==> MarksDpu(c, labels, a, b)
  {
    KeysDiffer(c);
    var keys, selected, vfValue := KeysOf(c), c.selector(labels), VfValue(c);
    if Reconciled(c, labels, a, b) {
      assert Find(b, keys.annotation) == AnnotatedAt(keys, selected, vfValue, a, keys.annotation);
      assert Find(b, keys.legacyAnnotation) == AnnotatedAt(keys, selected, vfValue, a, keys.legacyAnnotation);
      assert Find(b, keys.vf) == AnnotatedAt(keys, selected, vfValue, a, keys.vf);
      assert Find(b, keys.legacyVf) == AnnotatedAt(keys, selected, vfValue, a, keys.legacyVf);
    }
  }

  lemma PrefixesDiffer(s: string, t: string)
    ensures CONFIG_PREFIX + s != VF_PREFIX + t
  {
    assert (CONFIG_PREFIX + s)[24] == 'c' && (VF_PREFIX + t)[24] == 'v';
  }

  lemma KeysDiffer(c: Config)
    ensures var keys := KeysOf(c);
      && keys.annotation !in {keys.legacyAnnotation, keys.vf, keys.legacyVf}
      && keys.legacyAnnotation !in {keys.vf, keys.legacyVf} && keys.vf != keys.legacyVf
    ensures VfValue(c) != Some("")
  {
    assert |AnnotationKey(c)| > |LegacyAnnotationKey(c)|;
    assert |VfKey(c)| > |LegacyVfKey(c)|;
    PrefixesDiffer(Dotted(c.namespace, c.name), Dotted(c.namespace, c.name));
    PrefixesDiffer(Dotted(c.namespace, c.name), c.name);
    PrefixesDiffer(c.name, Dotted(c.namespace, c.name));
    PrefixesDiffer(c.name, c.name);
  }

  class Cluster {
    var dpus: seq<Dpu>
    var updates: nat
    const faults: Faults

    constructor (dpus: seq<Dpu>, faults: Faults)
      ensures this.dpus == dpus && this.faults == faults && updates == 0
    {
      this.dpus, this.faults, updates := dpus, faults, 0;
    }

    /** Writes back only the DPUs that changed, and returns those that matched, in list order. A failed
        update ends the loop: the DPUs from there on are as before. */
    method Reconcile(c: Config) returns (ok: bool, ghost reached: nat, matched: seq<string>)
      modifies this, faults
      ensures reached <= |dpus| == |old(dpus)| && (ok <==> reached == |dpus|)
      ensures forall i :: 0 <= i < reached ==> Updated(c, old(dpus)[i], dpus[i])
      ensures forall i :: 0 <= i < reached ==>
        MarksDpu(c, old(dpus)[i].labels, old(dpus)[i].annotations, dpus[i].annotations)
      ensures forall i :: reached <= i < |dpus| ==> dpus[i] == old(dpus)[i]
      ensures updates == old(updates) <==> dpus == old(dpus)
      ensures ok ==> exists at :: ListsSelected(c, old(dpus), at, matched)
      ensures ok <==> AllWork(old(faults.script), Changes(c, old(dpus)))
      ensures old(faults.script) == [] ==> faults.script == []
    {
      var list := dpus;
      ghost var script := faults.script;
      matched, reached := [], 0;
      for i := 0 to |list|
        invariant reached == i && Walked(c, list, dpus, i)
        invariant old(updates) <= updates && (updates == old(updates) <==> dpus == list)
        invariant matched == MatchedNames(c, list[..i])
        invariant WorkedSoFar(c, list, i, script, faults.script)
      {
        WalkStep(c, list, i, script, faults.script);
        if c.selector(list[i].labels) { matched := matched + [list[i].name]; }
        ok := Write(c, i, list);
        if !ok { return; }
        reached := i + 1;
      }
      assert list[..|list|] == list;
      ghost var at := MatchedInOrder(c, list);
      ok := true;
    }

    /** One DPU of the list. */
    method Write(c: Config, i: nat, list: seq<Dpu>) returns (ok: bool)
      requires i < |list| && Walked(c, list, dpus, i)
      modifies this, faults
      ensures if ok then Walked(c, list, dpus, i + 1) else dpus == old(dpus)
      ensures var needed := NeedsUpdate(c, list[i]);
        && (ok <==> !needed || Works(old(faults.script)))
        && faults.script == (if needed then Rest(old(faults.script)) else old(faults.script))
        && updates == old(updates) + (if needed && ok then 1 else 0)
        && (needed && ok ==> dpus != list)
        && (!needed ==> dpus == old(dpus))
    {
      ok := true;
      var dpu := list[i];
      var annotations, changed := Annotate(c, dpu);
      ChangedIff(c, dpu, annotations);
      ReconciledIsMarked(c, dpu.labels, dpu.annotations, annotations);
      if changed {
        ok := faults.Next();
        if !ok { return; }
        dpus := dpus[i := dpu.(annotations := annotations)];
        updates := updates + 1;
        assert dpus[i] != list[i];
      }
    }
  }

  /** The loop of a reconcile got to `i`. */
  ghost predicate Walked(c: Config, list: seq<Dpu>, now: seq<Dpu>, i: nat) {
    && i <= |list| == |now|
    && (forall j :: 0 <= j < i ==>
          Updated(c, list[j], now[j]) && MarksDpu(c, list[j].labels, list[j].annotations, now[j].annotations))
    && forall j :: i <= j < |list| ==> now[j] == list[j]
  }

  ghost predicate NeedsUpdate(c: Config, dpu: Dpu) {
    !Reconciled(c, dpu.labels, dpu.annotations, dpu.annotations)
  }

  /** How many DPUs a reconcile of `c` has to write. */
  ghost function Changes(c: Config, dpus: seq<Dpu>): nat {
    if dpus == [] then 0
    else
      var last := dpus[|dpus| - 1];
      Changes(c, dpus[..|dpus| - 1]) + if NeedsUpdate(c, last) then 1 else 0
  }

  lemma {:induction false} ChangesGrow(c: Config, dpus: seq<Dpu>, i: nat)
    requires i <= |dpus|
    ensures Changes(c, dpus[..i]) <= Changes(c, dpus)
  {
    if i == |dpus| {
      assert dpus[..i] == dpus;
    } else {
      ChangesGrow(c, dpus[..|dpus| - 1], i);
      assert dpus[..|dpus| - 1][..i] == dpus[..i];
    }
  }

  ghost predicate WorkedSoFar(c: Config, list: seq<Dpu>, i: nat, script: seq<bool>, rest: seq<bool>)
    requires i <= |list|
  {
    AllWork(script, Changes(c, list[..i])) && rest == Drop(script, Changes(c, list[..i]))
  }

  lemma WalkStep(c: Config, list: seq<Dpu>, i: nat, script: seq<bool>, rest: seq<bool>)
    requires i < |list| && WorkedSoFar(c, list, i, script, rest)
    ensures MatchedNames(c, list[..i + 1]) ==
      MatchedNames(c, list[..i]) + if c.selector(list[i].labels) then [list[i].name] else []
    ensures NeedsUpdate(c, list[i]) && !Works(rest) ==> !AllWork(script, Changes(c, list))
    ensures NeedsUpdate(c, list[i]) && Works(rest) ==> WorkedSoFar(c, list, i + 1, script, Rest(rest))
    ensures !NeedsUpdate(c, list[i]) ==> WorkedSoFar(c, list, i + 1, script, rest)
  {
    assert list[..i + 1][..i] == list[..i];
    ChangesGrow(c, list, i + 1);
    if NeedsUpdate(c, list[i]) { NextOne(script, Changes(c, list[..i]), Changes(c, list)); }
  }

  lemma ChangedIff(c: Config, dpu: Dpu, a: Strs)
    requires Reconciled(c, dpu.labels, dpu.annotations, a)
    ensures a != dpu.annotations <==> NeedsUpdate(c, dpu)
  {
    if Reconciled(c, dpu.labels, dpu.annotations, dpu.annotations) {
      forall k ensures Find(a, k) == Find(dpu.annotations, k) {
        assert Find(a, k) == AnnotatedAt(KeysOf(c), c.selector(dpu.labels), VfValue(c), dpu.annotations, k);
      }
      SameMap(a, dpu.annotations);
    }
  }

  ghost function MatchedNames(c: Config, dpus: seq<Dpu>): seq<string> {
    if dpus == [] then []
    else
      var last := dpus[|dpus| - 1];
      MatchedNames(c, dpus[..|dpus| - 1]) + if c.selector(last.labels) then [last.name] else []
  }

  /** The names are those of the DPUs at these positions, in list order, and the config selects just these. */
  ghost predicate ListsSelected(c: Config, dpus: seq<Dpu>, at: seq<nat>, names: seq<string>) {
    && |names| == |at|
    && (forall k :: 0 <= k < |at| ==>
          at[k] < |dpus| && names[k] == dpus[at[k]].name && c.selector(dpus[at[k]].labels))
    && (forall k, l :: 0 <= k < l < |at| ==> at[k] < at[l])
    && forall i :: 0 <= i < |dpus| && c.selector(dpus[i].labels) ==> i in at
  }

  lemma {:induction false} MatchedInOrder(c: Config, dpus: seq<Dpu>) returns (at: seq<nat>)
    ensures ListsSelected(c, dpus, at, MatchedNames(c, dpus))
  {
    if dpus == [] {
      at := [];
    } else {
      var init, last := dpus[..|dpus| - 1], dpus[|dpus| - 1];
      at := MatchedInOrder(c, init);
      assert dpus == init + [last];
      if c.selector(last.labels) {
        OneMoreSelected(c, init, last, at, MatchedNames(c, init));
        at := at + [|init|];
      } else {
        assert MatchedNames(c, dpus) == MatchedNames(c, init);
      }
    }
  }

  lemma OneMoreSelected(c: Config, init: seq<Dpu>, last: Dpu, at: seq<nat>, names: seq<string>)
    requires ListsSelected(c, init, at, names) && c.selector(last.labels)
    ensures ListsSelected(c, init + [last], at + [|init|], names + [last.name])
  {
    var dpus, at' := init + [last], at + [|init|];
    forall i | 0 <= i < |dpus| && c.selector(dpus[i].labels) ensures i in at' {
      if i == |init| { assert at'[|at|] == i; } else { assert init[i] == dpus[i]; }
    }
  }

  ghost predicate Updated(c: Config, was: Dpu, now: Dpu) {
    now == was.(annotations := now.annotations) && Reconciled(c, was.labels, was.annotations, now.annotations)
  }

  method Annotate(c: Config, dpu: Dpu) returns (a: Strs, changed: bool)
    ensures Reconciled(c, dpu.labels, dpu.annotations, a)
    ensures changed <==> a != dpu.annotations
  {
    KeysDiffer(c);
    a, changed := AnnotateKeys(KeysOf(c), c.selector(dpu.labels), VfValue(c), dpu.annotations);
  }

  /** The loop body, key by key. */
  method AnnotateKeys(keys: Keys, matches: bool, vfValue: Option<string>, was: Strs) returns (a: Strs, changed: bool)
    requires keys.annotation !in {keys.legacyAnnotation, keys.vf, keys.legacyVf}
    requires keys.legacyAnnotation !in {keys.vf, keys.legacyVf} && keys.vf != keys.legacyVf
    requires vfValue != Some("")
    ensures forall k :: Find(a, k) == AnnotatedAt(keys, matches, vfValue, was, k)
    ensures changed <==> a != was
    ensures matches ==> Find(a, keys.annotation) == Some("true") && Find(a, keys.vf) == vfValue
    ensures !matches ==> keys.annotation !in a && keys.vf !in a && keys.legacyVf !in a
    ensures keys.legacyAnnotation !in a
  {
    a, changed := was, false;
    if matches {
      if Lookup(a, keys.annotation) != "true" { a, changed := a[keys.annotation := "true"], true; }
      if keys.legacyAnnotation in a { a, changed := a - {keys.legacyAnnotation}, true; }
      if vfValue.Some? {
        if Lookup(a, keys.vf) != vfValue.value { a, changed := a[keys.vf := vfValue.value], true; }
        if keys.legacyVf in a { a, changed := a - {keys.legacyVf}, true; }
      } else if keys.vf in a {
        a, changed := a - {keys.vf}, true;
      } else if keys.legacyVf in a {
        a, changed := a - {keys.legacyVf}, true;
      }
    } else {
      if keys.annotation in a { a, changed := a - {keys.annotation}, true; }
      if keys.legacyAnnotation in a { a, changed := a - {keys.legacyAnnotation}, true; }
      if keys.vf in a { a, changed := a - {keys.vf}, true; }
      if keys.legacyVf in a { a, changed := a - {keys.legacyVf}, true; }
    }
    ChangeShows(keys, was, a);
  }

  lemma ChangeShows(keys: Keys, was: Strs, a: Strs)
    ensures var touched := {keys.annotation, keys.legacyAnnotation, keys.vf, keys.legacyVf};
      (exists k :: k in touched && Find(a, k) != Find(was, k)) ==> a != was
  {
  }

  /* ----- what the daemon reads ----- */

  datatype Reading = NoCount | Count(value: int) | Invalid

  /** The wrap-around of Go's conversion to `int32`. */
  function Int32(n: int): (r: int)
    ensures -0x8000_0000 <= r < 0x8000_0000 && exists wraps :: n == r + wraps * 0x1_0000_0000
  {
    var wraps := (n + 0x8000_0000) / 0x1_0000_0000;
    assert n == (n + 0x8000_0000) % 0x1_0000_0000 - 0x8000_0000 + wraps * 0x1_0000_0000;
    (n + 0x8000_0000) % 0x1_0000_0000 - 0x8000_0000
  }

  predicate IsVfKey(k: string) { VF_PREFIX <= k }

  /** The count under a key, `None` when it is not a number above zero. */
  function CountAt(a: Strs, k: string): Option<int>
    requires k in a
  {
    var n := Atoi(a[k]);
    if n.None? || n.value <= 0 then None else Some(Int32(n.value))
  }

  /** The annotations agree on the count `v`. */
  ghost predicate SaysOnly(a: Strs, v: int) {
    && (exists k :: k in a && IsVfKey(k))
    && forall k :: k in a && IsVfKey(k) ==> CountAt(a, k) == Some(v)
  }

  ghost predicate ReadsAs(a: Strs, r: Reading) {
    match r
    case NoCount => forall k :: k in a ==> !IsVfKey(k)
    case Count(v) => SaysOnly(a, v)
    case Invalid => (exists k :: k in a && IsVfKey(k)) && forall v :: !SaysOnly(a, v)
  }

  /** No number above zero, or two numbers that differ as 32-bit ones. */
  ghost predicate Spoils(value: string, other: string) {
    var n, m := Atoi(value), Atoi(other);
    n.None? || n.value <= 0 || (m.Some? && Int32(n.value) != Int32(m.value))
  }

  /** What makes a reading invalid: one of the values, or two of them together. */
  lemma InvalidIffSpoiled(a: Strs, r: Reading)
    requires ReadsAs(a, r)
    ensures r == NoCount <==> forall k :: k in a ==> !("dpu.config.openshift.io/vf-count/" <= k)
    ensures r == Invalid <==> exists k, l :: k in a && l in a && IsVfKey(k) && IsVfKey(l) && Spoils(a[k], a[l])
  {
    match r
    case NoCount =>
    case Count(v) =>
      forall k, l | k in a && l in a && IsVfKey(k) && IsVfKey(l) ensures !Spoils(a[k], a[l]) {
        assert CountAt(a, k) == CountAt(a, l) == Some(v);
      }
    case Invalid =>
      var k :| k in a && IsVfKey(k);
      if CountAt(a, k) == None {
        assert Spoils(a[k], a[k]);
      } else {
        assert !SaysOnly(a, CountAt(a, k).value);
        var l :| l in a && IsVfKey(l) && CountAt(a, l) != CountAt(a, k);
        assert Spoils(a[l], a[k]);
      }
  }

  /** For every iteration order: one count if all agree on it, none if there is none, an error if one
      is no count or two differ. */
  method DesiredVfCount(a: Strs) returns (r: Reading)
    ensures ReadsAs(a, r)
  {
    var todo, values: set<int> := a.Keys, {};
    while todo != {}
      invariant todo <= a.Keys
      invariant forall k :: k in a && k !in todo && IsVfKey(k) ==> CountAt(a, k).Some? && CountAt(a, k).value in values
      invariant forall v :: v in values ==> exists k :: k in a && IsVfKey(k) && CountAt(a, k) == Some(v)
      decreases todo
    {
      var key :| key in todo;
      todo := todo - {key};
      if IsVfKey(key) {
        var parsed := Atoi(a[key]);
        if parsed.None? || parsed.value <= 0 {
          assert CountAt(a, key) == None;
          return Invalid;
        }
        values := values + {Int32(parsed.value)};
      }
    }
    if value :| value in values {
      if other :| other in values && other != value {
        return Invalid;
      }
      return Count(value);
    }
    return NoCount;
  }

  /* ----- runs of the controller ----- */

  ghost predicate Wants(c: Config, labels: Strs) {
    c.selector(labels) && c.vfCount.Some?
  }

  /** Names of configs with one namespace differ, and namespaces hold no dot. */
  ghost predicate Distinct(cs: seq<Config>) {
    && (forall i :: 0 <= i < |cs| ==> '.' !in cs[i].namespace)
    && forall i, j :: 0 <= i < j < |cs| ==> cs[i].namespace != cs[j].namespace || cs[i].name != cs[j].name
  }

  /** The legacy key of `c` is the current key of `d`. */
  predicate Clashes(c: Config, d: Config) {
    c.name == Dotted(d.namespace, d.name)
  }

  ghost predicate ClashFree(cs: seq<Config>, labels: Strs) {
    forall i, j :: 0 <= i < |cs| && 0 <= j < |cs| && Wants(cs[j], labels) ==> !Clashes(cs[i], cs[j])
  }

  /** Every key under the VF prefix belongs to one of the configs. */
  ghost predicate OwnKeysOnly(cs: seq<Config>, a: Strs) {
    forall k :: k in a && IsVfKey(k) ==> exists i :: 0 <= i < |cs| && k in {VfKey(cs[i]), LegacyVfKey(cs[i])}
  }

  lemma {:induction false} DottedIsInjective(ns: string, name: string, ns': string, name': string)
    requires '.' !in ns && '.' !in ns'
    requires Dotted(ns, name) == Dotted(ns', name')
    ensures ns == ns' && name == name'
  {
    var s := Dotted(ns, name);
    if ns == "" || ns' == "" {
      assert s[|ns|] == '.' && s[|ns'|] == '.';
      assert s[1..] == name && s[1..] == name';
    } else {
      assert s[0] == ns[0] == ns'[0];
      assert s[1..] == Dotted(ns[1..], name) == Dotted(ns'[1..], name');
      DottedIsInjective(ns[1..], name, ns'[1..], name');
      assert ns == [ns[0]] + ns[1..] && ns' == [ns'[0]] + ns'[1..];
    }
  }

  /** No two configs have one current VF key, and those of one name have one legacy key. A current and
      a legacy key coincide in a clash only. */
  lemma KeysStayApart(cs: seq<Config>, i: nat, j: nat)
    requires Distinct(cs) && i < |cs| && j < |cs|
    ensures i != j ==> VfKey(cs[i]) != VfKey(cs[j])
    ensures VfKey(cs[i]) == LegacyVfKey(cs[j]) <==> Clashes(cs[j], cs[i])
    ensures LegacyVfKey(cs[i]) == LegacyVfKey(cs[j]) <==> cs[i].name == cs[j].name
    ensures VfKey(cs[i]) !in {AnnotationKey(cs[j]), LegacyAnnotationKey(cs[j])}
    ensures LegacyVfKey(cs[i]) !in {AnnotationKey(cs[j]), LegacyAnnotationKey(cs[j])}
  {
    var c, d := cs[i], cs[j];
    SamePrefix(VF_PREFIX, Dotted(c.namespace, c.name), Dotted(d.namespace, d.name));
    SamePrefix(VF_PREFIX, Dotted(c.namespace, c.name), d.name);
    SamePrefix(VF_PREFIX, c.name, d.name);
    PrefixesDiffer(Dotted(d.namespace, d.name), Dotted(c.namespace, c.name));
    PrefixesDiffer(d.name, Dotted(c.namespace, c.name));
    PrefixesDiffer(Dotted(d.namespace, d.name), c.name);
    PrefixesDiffer(d.name, c.name);
    if i != j && VfKey(c) == VfKey(d) {
      DottedIsInjective(c.namespace, c.name, d.namespace, d.name);
    }
  }

  /** The mark of each config is on a DPU exactly if it selects it, and no undotted one. */
  ghost predicate MarkRight(c: Config, labels: Strs, a: Strs) {
    && Find(a, "dpu.config.openshift.io/config-" + (c.namespace + "." + c.name))
         == (if c.selector(labels) then Some("true") else None)
    && Find(a, "dpu.config.openshift.io/config-" + c.name) == None
  }

  /** No config's name is the dotted namespace and name of a config that selects the DPU. */
  ghost predicate MarksApart(cs: seq<Config>, labels: Strs) {
    forall i, j :: 0 <= i < |cs| && 0 <= j < |cs| && cs[j].selector(labels) ==>
      cs[i].name != cs[j].namespace + "." + cs[j].name
  }

  ghost predicate MarksRight(cs: seq<Config>, labels: Strs, done: seq<nat>, a: Strs) {
    forall i :: i in done && i < |cs| ==> MarkRight(cs[i], labels, a)
  }

  lemma MarkKeysStayApart(cs: seq<Config>, i: nat, j: nat)
    requires Distinct(cs) && i < |cs| && j < |cs|
    ensures i != j ==> AnnotationKey(cs[i]) != AnnotationKey(cs[j])
    ensures AnnotationKey(cs[i]) == LegacyAnnotationKey(cs[j]) <==> Clashes(cs[j], cs[i])
    ensures {AnnotationKey(cs[i]), LegacyAnnotationKey(cs[i])} !! {VfKey(cs[j]), LegacyVfKey(cs[j])}
  {
    var c, d := cs[i], cs[j];
    SamePrefix(CONFIG_PREFIX, Dotted(c.namespace, c.name), d.name);
    SamePrefix(CONFIG_PREFIX, Dotted(c.namespace, c.name), Dotted(d.namespace, d.name));
    KeysStayApart(cs, j, i);
    if i != j && AnnotationKey(c) == AnnotationKey(d) {
      DottedIsInjective(c.namespace, c.name, d.namespace, d.name);
    }
  }

  /** Reconciling one config sets its own mark and leaves the others' right. */
  lemma MarksStep(cs: seq<Config>, labels: Strs, done: seq<nat>, j: nat, a: Strs, b: Strs)
    requires Distinct(cs) && MarksApart(cs, labels) && j < |cs|
    requires MarksRight(cs, labels, done, a) && Reconciled(cs[j], labels, a, b)
    ensures MarksRight(cs, labels, done + [j], b)
  {
    ReconciledIsMarked(cs[j], labels, a, b);
    forall i | i in done + [j] && i < |cs| ensures MarkRight(cs[i], labels, b) {
      MarkKeysStayApart(cs, i, j);
      MarkKeysStayApart(cs, j, i);
      MarkStaysRight(cs[i], cs[j], labels, a, b);
    }
  }

  lemma MarkStaysRight(c: Config, d: Config, labels: Strs, a: Strs, b: Strs)
    requires c == d || MarkRight(c, labels, a)
    requires MarksDpu(d, labels, a, b)
    requires c != d ==> AnnotationKey(c) != AnnotationKey(d)
    requires AnnotationKey(c) == LegacyAnnotationKey(d) ==> !c.selector(labels)
    requires AnnotationKey(d) == LegacyAnnotationKey(c) ==> !d.selector(labels)
    requires {AnnotationKey(c), LegacyAnnotationKey(c)} !! {VfKey(d), LegacyVfKey(d)}
    ensures MarkRight(c, labels, b)
  {
  }

  /** After the configs in `done` were reconciled, in that order: a config's current key is right from
      its first reconcile on, and its legacy key is gone from the second one on. */
  ghost predicate Progress(cs: seq<Config>, labels: Strs, done: seq<nat>, a: Strs) {
    && OwnKeysOnly(cs, a)
    && (forall i :: i in done && i < |cs| ==>
          Find(a, VfKey(cs[i])) == if cs[i].selector(labels) then VfValue(cs[i]) else None)
    && forall i: nat :: multiset(done)[i] >= 2 && i < |cs| ==> LegacyVfKey(cs[i]) !in a
  }

  lemma ProgressStep(cs: seq<Config>, labels: Strs, done: seq<nat>, j: nat, a: Strs, b: Strs)
    requires Distinct(cs) && ClashFree(cs, labels) && j < |cs|
    requires Progress(cs, labels, done, a) && Reconciled(cs[j], labels, a, b)
    ensures Progress(cs, labels, done + [j], b)
  {
    var keys, matches, vfValue := KeysOf(cs[j]), cs[j].selector(labels), VfValue(cs[j]);
    KeysDiffer(cs[j]);
    forall k | k in b && IsVfKey(k) ensures exists i :: 0 <= i < |cs| && k in {VfKey(cs[i]), LegacyVfKey(cs[i])} {
      assert Find(b, k) == AnnotatedAt(keys, matches, vfValue, a, k);
      NotConfigKey(cs[j], k);
    }
    forall i | i in done + [j] && i < |cs|
      ensures Find(b, VfKey(cs[i])) == if cs[i].selector(labels) then VfValue(cs[i]) else None
    {
      KeysStayApart(cs, i, j);
      assert Find(b, VfKey(cs[i])) == AnnotatedAt(keys, matches, vfValue, a, VfKey(cs[i]));
    }
    forall i: nat | multiset(done + [j])[i] >= 2 && i < |cs| ensures LegacyVfKey(cs[i]) !in b {
      KeysStayApart(cs, i, j);
      KeysStayApart(cs, j, i);
      assert Find(b, LegacyVfKey(cs[i])) == AnnotatedAt(keys, matches, vfValue, a, LegacyVfKey(cs[i]));
      assert i == j ==> multiset(done)[i] >= 1;
    }
  }

  lemma NotConfigKey(c: Config, k: string)
    requires IsVfKey(k)
    ensures k !in {AnnotationKey(c), LegacyAnnotationKey(c)}
  {
    assert k == VF_PREFIX + k[|VF_PREFIX|..];
    PrefixesDiffer(Dotted(c.namespace, c.name), k[|VF_PREFIX|..]);
    PrefixesDiffer(c.name, k[|VF_PREFIX|..]);
  }

  predicate Indexes(schedule: seq<nat>, n: nat) {
    forall k :: 0 <= k < |schedule| ==> schedule[k] < n
  }

  ghost predicate Covered(cs: seq<Config>, done: seq<nat>) {
    forall i: nat :: i < |cs| ==> multiset(done)[i] >= 2
  }

  /** What the daemon should read: the counts of the selecting configs, if they agree. */
  ghost predicate CorrectReading(cs: seq<Config>, labels: Strs, r: Reading) {
    match r
    case NoCount => forall i :: 0 <= i < |cs| ==> !Wants(cs[i], labels)
    case Count(v) =>
      && 0 < v
      && (exists i :: 0 <= i < |cs| && Wants(cs[i], labels))
      && forall i :: 0 <= i < |cs| && Wants(cs[i], labels) ==> cs[i].vfCount == Some(v)
    case Invalid =>
      exists i, j :: 0 <= i < |cs| && 0 <= j < |cs| && Wants(cs[i], labels) && Wants(cs[j], labels)
        && (cs[i].vfCount.value <= 0 || cs[i].vfCount != cs[j].vfCount)
  }

  ghost predicate Int32Counts(cs: seq<Config>) {
    forall i :: 0 <= i < |cs| && cs[i].vfCount.Some? ==> -0x8000_0000 <= cs[i].vfCount.value < 0x8000_0000
  }

  /** The keys under the VF prefix are those of the configs that want a count here, and say it. */
  ghost predicate KeysRight(cs: seq<Config>, labels: Strs, a: Strs) {
    && (forall k :: k in a && IsVfKey(k) ==> exists i :: 0 <= i < |cs| && Wants(cs[i], labels) && k == VfKey(cs[i]))
    && forall i :: 0 <= i < |cs| && Wants(cs[i], labels) ==>
         Find(a, VfKey(cs[i])) == Some(PrintInt(cs[i].vfCount.value)) && IsVfKey(VfKey(cs[i]))
  }

  lemma KeysSettle(cs: seq<Config>, labels: Strs, done: seq<nat>, a: Strs)
    requires Distinct(cs) && Progress(cs, labels, done, a) && Covered(cs, done)
    ensures KeysRight(cs, labels, a)
  {
    forall i: nat | i < |cs| ensures i in done && LegacyVfKey(cs[i]) !in a {
      assert multiset(done)[i] >= 2;
      assert i in multiset(done);
    }
    forall k | k in a && IsVfKey(k) ensures exists i :: 0 <= i < |cs| && Wants(cs[i], labels) && k == VfKey(cs[i]) {
      var i :| 0 <= i < |cs| && k in {VfKey(cs[i]), LegacyVfKey(cs[i])};
      assert k == VfKey(cs[i]) && Find(a, k).Some?;
    }
  }

  /** What is printed under a wanted key is parsed back to the wanted count. */
  lemma CountIsReadBack(cs: seq<Config>, labels: Strs, a: Strs, i: nat)
    requires KeysRight(cs, labels, a) && Int32Counts(cs) && i < |cs| && Wants(cs[i], labels)
    ensures var v := cs[i].vfCount.value;
      VfKey(cs[i]) in a && CountAt(a, VfKey(cs[i])) == if v <= 0 then None else Some(v)
  {
    assert Find(a, VfKey(cs[i])).Some?;
    AtoiOfPrinted(cs[i].vfCount.value);
  }

  lemma ReadingIsCorrect(cs: seq<Config>, labels: Strs, a: Strs, r: Reading)
    requires KeysRight(cs, labels, a) && Int32Counts(cs)
    ensures ReadsAs(a, r) <==> CorrectReading(cs, labels, r)
  {
    forall i: nat | i < |cs| && Wants(cs[i], labels)
      ensures var v := cs[i].vfCount.value;
        && VfKey(cs[i]) in a && IsVfKey(VfKey(cs[i]))
        && CountAt(a, VfKey(cs[i])) == if v <= 0 then None else Some(v)
    {
      CountIsReadBack(cs, labels, a, i);
    }
    if ReadsAs(a, r) { ReadIsCorrect(cs, labels, a, r); }
    if CorrectReading(cs, labels, r) {
      var r' := SomethingIsRead(a);
      ReadIsCorrect(cs, labels, a, r');
      CorrectReadingIsUnique(cs, labels, r, r');
    }
  }

  /** Every wanted count is under its key. */
  ghost predicate AllReadBack(cs: seq<Config>, labels: Strs, a: Strs) {
    forall i: nat :: i < |cs| && Wants(cs[i], labels) ==>
      && VfKey(cs[i]) in a && IsVfKey(VfKey(cs[i]))
      && CountAt(a, VfKey(cs[i])) == if cs[i].vfCount.value <= 0 then None else cs[i].vfCount
  }

  lemma ReadIsCorrect(cs: seq<Config>, labels: Strs, a: Strs, r: Reading)
    requires KeysRight(cs, labels, a) && AllReadBack(cs, labels, a) && ReadsAs(a, r)
    ensures CorrectReading(cs, labels, r)
  {
    match r
    case NoCount =>
    case Count(v) =>
    case Invalid =>
      var k :| k in a && IsVfKey(k);
      var i :| 0 <= i < |cs| && Wants(cs[i], labels) && k == VfKey(cs[i]);
      if 0 < cs[i].vfCount.value {
        var v := cs[i].vfCount.value;
        assert !SaysOnly(a, v);
        var k' :| k' in a && IsVfKey(k') && CountAt(a, k') != Some(v);
        var j :| 0 <= j < |cs| && Wants(cs[j], labels) && k' == VfKey(cs[j]);
      }
  }

  /** There is one correct reading. */
  lemma CorrectReadingIsUnique(cs: seq<Config>, labels: Strs, r: Reading, r': Reading)
    requires CorrectReading(cs, labels, r) && CorrectReading(cs, labels, r')
    ensures r == r'
  {
    if r == Invalid || r' == Invalid {
      var i, j :| 0 <= i < |cs| && 0 <= j < |cs| && Wants(cs[i], labels) && Wants(cs[j], labels)
        && (cs[i].vfCount.value <= 0 || cs[i].vfCount != cs[j].vfCount);
    }
  }

  lemma SomethingIsRead(a: Strs) returns (r: Reading)
    ensures ReadsAs(a, r)
  {
    if k :| k in a && IsVfKey(k) {
      if v :| SaysOnly(a, v) { r := Count(v); } else { r := Invalid; }
    } else {
      r := NoCount;
    }
  }

  /** The same DPUs in the same order, but for their annotations. */
  ghost predicate SameDpus(before: seq<Dpu>, after: seq<Dpu>) {
    && |before| == |after|
    && forall i :: 0 <= i < |after| ==> after[i] == before[i].(annotations := after[i].annotations)
  }

  ghost predicate AllProgress(cs: seq<Config>, done: seq<nat>, dpus: seq<Dpu>) {
    forall p :: p in dpus ==>
      && ClashFree(cs, p.labels) && Progress(cs, p.labels, done, p.annotations)
      && (MarksApart(cs, p.labels) ==> MarksRight(cs, p.labels, done, p.annotations))
  }

  /** A reconcile that reached some of the DPUs. */
  lemma ProgressEverywhere(
    cs: seq<Config>, done: seq<nat>, j: nat, before: seq<Dpu>, after: seq<Dpu>, reached: nat)
    requires Distinct(cs) && j < |cs| && AllProgress(cs, done, before) && reached <= |before| == |after|
    requires forall i :: 0 <= i < reached ==> Updated(cs[j], before[i], after[i])
    requires forall i :: reached <= i < |after| ==> after[i] == before[i]
    ensures AllProgress(cs, if reached == |after| then done + [j] else done, after)
  {
    forall p | p in after
      ensures ClashFree(cs, p.labels)
      ensures Progress(cs, p.labels, if reached == |after| then done + [j] else done, p.annotations)
      ensures MarksApart(cs, p.labels) ==>
        MarksRight(cs, p.labels, if reached == |after| then done + [j] else done, p.annotations)
    {
      var i :| 0 <= i < |after| && after[i] == p;
      assert before[i] in before;
      if i < reached {
        assert Updated(cs[j], before[i], p);
        ProgressStep(cs, p.labels, done, j, before[i].annotations, p.annotations);
        if MarksApart(cs, p.labels) { MarksStep(cs, p.labels, done, j, before[i].annotations, p.annotations); }
      }
    }
  }

  /** Any schedule, and any failures. `done` lists the reconciles that succeeded: once it holds every
      config twice, the daemon's reading is the correct one, on every DPU. */
  method ReconcileAll(cluster: Cluster, cs: seq<Config>, schedule: seq<nat>) returns (done: seq<nat>)
    requires Distinct(cs) && Int32Counts(cs)
    requires Indexes(schedule, |cs|)
    requires forall p :: p in cluster.dpus ==> ClashFree(cs, p.labels) && OwnKeysOnly(cs, p.annotations)
    modifies cluster, cluster.faults
    ensures SameDpus(old(cluster.dpus), cluster.dpus)
    ensures Covered(cs, done) ==> forall p, r :: p in cluster.dpus ==>
      (ReadsAs(p.annotations, r) <==> CorrectReading(cs, p.labels, r))
    ensures forall p :: p in cluster.dpus && MarksApart(cs, p.labels) ==>
      MarksRight(cs, p.labels, done, p.annotations)
    ensures old(cluster.faults.script) == [] ==> done == schedule && cluster.faults.script == []
  {
    done := [];
    for n := 0 to |schedule|
      invariant SameDpus(old(cluster.dpus), cluster.dpus)
      invariant AllProgress(cs, done, cluster.dpus)
      invariant old(cluster.faults.script) == [] ==> done == schedule[..n] && cluster.faults.script == []
    {
      var ok := ReconcileNext(cluster, cs, schedule[n], done);
      assert schedule[..n + 1] == schedule[..n] + [schedule[n]];
      if ok { done := done + [schedule[n]]; }
    }
    assert schedule[..|schedule|] == schedule;
    if Covered(cs, done) { AllRead(cs, done, cluster.dpus); }
  }

  method ReconcileNext(cluster: Cluster, cs: seq<Config>, j: nat, ghost done: seq<nat>) returns (ok: bool)
    requires Distinct(cs) && j < |cs| && AllProgress(cs, done, cluster.dpus)
    modifies cluster, cluster.faults
    ensures SameDpus(old(cluster.dpus), cluster.dpus)
    ensures AllProgress(cs, if ok then done + [j] else done, cluster.dpus)
    ensures old(cluster.faults.script) == [] ==> ok && cluster.faults.script == []
  {
    ghost var before := cluster.dpus;
    ghost var reached;
    var matched;
    ok, reached, matched := cluster.Reconcile(cs[j]);
    ProgressEverywhere(cs, done, j, before, cluster.dpus, reached);
  }

  lemma AllRead(cs: seq<Config>, done: seq<nat>, dpus: seq<Dpu>)
    requires Distinct(cs) && Int32Counts(cs) && AllProgress(cs, done, dpus) && Covered(cs, done)
    ensures forall p, r :: p in dpus ==> (ReadsAs(p.annotations, r) <==> CorrectReading(cs, p.labels, r))
  {
    forall p, r | p in dpus ensures ReadsAs(p.annotations, r) <==> CorrectReading(cs, p.labels, r) {
      KeysSettle(cs, p.labels, done, p.annotations);
      ReadingIsCorrect(cs, p.labels, p.annotations, r);
    }
  }

  /* ----- the legacy key of one config may be the current key of another ----- */

  ghost function Next(c: Config, labels: Strs, a: Strs): (b: Strs)
    ensures Reconciled(c, labels, a, b)
  {
    var keys, matches, vfValue := KeysOf(c), c.selector(labels), VfValue(c);
    map k | k in a.Keys + {keys.annotation, keys.vf} && AnnotatedAt(keys, matches, vfValue, a, k).Some?
      :: AnnotatedAt(keys, matches, vfValue, a, k).value
  }

  ghost function RunAll(cs: seq<Config>, labels: Strs, schedule: seq<nat>, a: Strs): Strs
    requires Indexes(schedule, |cs|)
  {
    if schedule == [] then a
    else
      var n := |schedule| - 1;
      Next(cs[schedule[n]], labels, RunAll(cs, labels, schedule[..n], a))
  }

  lemma {:induction false} RunProgress(cs: seq<Config>, labels: Strs, schedule: seq<nat>, a: Strs)
    requires Distinct(cs) && ClashFree(cs, labels) && OwnKeysOnly(cs, a)
    requires Indexes(schedule, |cs|)
    ensures Progress(cs, labels, schedule, RunAll(cs, labels, schedule, a))
  {
    if schedule == [] {
    } else {
      var n := |schedule| - 1;
      RunProgress(cs, labels, schedule[..n], a);
      assert schedule == schedule[..n] + [schedule[n]];
      var before := RunAll(cs, labels, schedule[..n], a);
      ProgressStep(cs, labels, schedule[..n], schedule[n], before, Next(cs[schedule[n]], labels, before));
    }
  }

  function Twice(n: nat): (s: seq<nat>)
    ensures Indexes(s, n)
    ensures forall i: nat :: i < n ==> multiset(s)[i] >= 2
  {
    if n == 0 then [] else Twice(n - 1) + [n - 1, n - 1]
  }

  /** Two reconciles of `c` remove its legacy key, whoever it belongs to. */
  lemma LegacyKeyGoes(c: Config, labels: Strs, a: Strs)
    ensures LegacyVfKey(c) !in Next(c, labels, Next(c, labels, a))
  {
    var b := Next(c, labels, a);
    KeysDiffer(c);
    assert Find(b, VfKey(c)) == AnnotatedAt(KeysOf(c), c.selector(labels), VfValue(c), a, VfKey(c));
    assert Find(Next(c, labels, b), LegacyVfKey(c)) ==
      AnnotatedAt(KeysOf(c), c.selector(labels), VfValue(c), b, LegacyVfKey(c));
  }

  ghost predicate SettlesAlways(cs: seq<Config>, labels: Strs) {
    forall schedule, a :: Indexes(schedule, |cs|) && Covered(cs, schedule) && OwnKeysOnly(cs, a) ==>
      KeysRight(cs, labels, RunAll(cs, labels, schedule, a))
  }

  lemma RunAllStep(cs: seq<Config>, labels: Strs, schedule: seq<nat>, i: nat, a: Strs)
    requires Indexes(schedule, |cs|) && i < |cs|
    ensures Indexes(schedule + [i], |cs|)
    ensures RunAll(cs, labels, schedule + [i], a) == Next(cs[i], labels, RunAll(cs, labels, schedule, a))
  {
    assert (schedule + [i])[..|schedule|] == schedule;
  }

  lemma ClashBreaksASchedule(cs: seq<Config>, labels: Strs, i: nat, j: nat, schedule: seq<nat>)
    requires Distinct(cs) && i < |cs| && j < |cs| && Wants(cs[j], labels) && Clashes(cs[i], cs[j])
    requires schedule == Twice(|cs|) + [i] + [i]
    ensures Indexes(schedule, |cs|) && Covered(cs, schedule)
    ensures !KeysRight(cs, labels, RunAll(cs, labels, schedule, map[]))
  {
    var twice := Twice(|cs|);
    RunAllStep(cs, labels, twice, i, map[]);
    RunAllStep(cs, labels, twice + [i], i, map[]);
    var a, b := RunAll(cs, labels, twice, map[]), RunAll(cs, labels, schedule, map[]);
    LegacyKeyGoes(cs[i], labels, a);
    assert Find(b, VfKey(cs[j])) == None by { KeysStayApart(cs, j, i); }
    assert !KeysRight(cs, labels, b);
  }

  /** The annotations settle as wanted on every schedule, from every start, exactly when no config's
      name is the dotted namespace and name of a config that wants a count here. */
  lemma SettlesIffClashFree(cs: seq<Config>, labels: Strs)
    requires Distinct(cs)
    ensures ClashFree(cs, labels) <==> SettlesAlways(cs, labels)
  {
    if ClashFree(cs, labels) {
      forall schedule, a | Indexes(schedule, |cs|) && Covered(cs, schedule) && OwnKeysOnly(cs, a)
        ensures KeysRight(cs, labels, RunAll(cs, labels, schedule, a))
      {
        RunProgress(cs, labels, schedule, a);
        KeysSettle(cs, labels, schedule, RunAll(cs, labels, schedule, a));
      }
    } else {
      var i: nat, j: nat :| i < |cs| && j < |cs| && Wants(cs[j], labels) && Clashes(cs[i], cs[j]);
      ClashBreaksASchedule(cs, labels, i, j, Twice(|cs|) + [i] + [i]);
      assert OwnKeysOnly(cs, map[]);
    }
  }

  lemma {:induction false} RunMarks(cs: seq<Config>, labels: Strs, schedule: seq<nat>, a: Strs)
    requires Distinct(cs) && MarksApart(cs, labels) && Indexes(schedule, |cs|)
    ensures MarksRight(cs, labels, schedule, RunAll(cs, labels, schedule, a))
  {
    if schedule == [] {
    } else {
      var n := |schedule| - 1;
      RunMarks(cs, labels, schedule[..n], a);
      assert schedule == schedule[..n] + [schedule[n]];
      var before := RunAll(cs, labels, schedule[..n], a);
      MarksStep(cs, labels, schedule[..n], schedule[n], before, Next(cs[schedule[n]], labels, before));
    }
  }

  lemma ClashTakesMark(cs: seq<Config>, labels: Strs, i: nat, j: nat, a: Strs)
    requires i < |cs| && j < |cs| && cs[j].selector(labels) && cs[i].name == cs[j].namespace + "." + cs[j].name
    ensures !MarksRight(cs, labels, [j, i], RunAll(cs, labels, [j, i], a))
  {
    assert [j, i][..1] == [j];
    var b := RunAll(cs, labels, [j], a);
    ReconciledIsMarked(cs[i], labels, b, Next(cs[i], labels, b));
    assert j in [j, i];
    assert Find(RunAll(cs, labels, [j, i], a), LegacyAnnotationKey(cs[i])) == None;
  }

  /** The marks of all configs reconciled so far are right on every schedule, from every start, exactly
      when no config's name is the dotted namespace and name of a config that selects the DPU. */
  lemma MarksSettleIffApart(cs: seq<Config>, labels: Strs)
    requires Distinct(cs)
    ensures MarksApart(cs, labels) <==>
      forall schedule, a :: Indexes(schedule, |cs|) ==>
        MarksRight(cs, labels, schedule, RunAll(cs, labels, schedule, a))
  {
    if MarksApart(cs, labels) {
      forall schedule, a | Indexes(schedule, |cs|)
        ensures MarksRight(cs, labels, schedule, RunAll(cs, labels, schedule, a))
      {
        RunMarks(cs, labels, schedule, a);
      }
    } else {
      var i: nat, j: nat :| i < |cs| && j < |cs| && cs[j].selector(labels)
        && cs[i].name == cs[j].namespace + "." + cs[j].name;
      ClashTakesMark(cs, labels, i, j, map[]);
      assert Indexes([j, i], |cs|);
    }
  }

  /** For one: config "b" of namespace "a" asks for 4 VFs everywhere, config "a.b" of namespace "x" for
      nothing. Each reconciled twice, the second config last, the daemon reads no count. */
  lemma ClashLosesCount()
    ensures var everywhere := (_: Strs) => true;
      var cs := [Config("a", "b", everywhere, Some(4)), Config("x", "a.b", everywhere, None)];
      Distinct(cs) && Wants(cs[0], map[]) && VfKey(cs[0]) !in RunAll(cs, map[], [0, 0, 1, 1], map[])
  {
    var everywhere := (_: Strs) => true;
    var cs := [Config("a", "b", everywhere, Some(4)), Config("x", "a.b", everywhere, None)];
    var a := RunAll(cs, map[], [0, 0], map[]);
    assert [0, 0, 1, 1][..3] == [0, 0, 1] && [0, 0, 1][..2] == [0, 0];
    assert RunAll(cs, map[], [0, 0, 1, 1], map[]) == Next(cs[1], map[], Next(cs[1], map[], a));
    LegacyKeyGoes(cs[1], map[], a);
    assert Dotted("a", "b") == "a.b";
  }
}
