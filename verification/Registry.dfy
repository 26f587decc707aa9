/** The plugin registry: plugins by name, with an index from device to plugin name. */
module Registry {
  import opened Common
  import opened Strings

  datatype DeviceID = DeviceID(vendor: string, device: string)

  /** A plugin is what its constant description says. */
  datatype Plugin = Plugin(name: string, devices: seq<DeviceID>)

  function DeviceKey(d: DeviceID): string {
    ToLower(d.vendor + ":" + d.device)
  }

  /** Recursive, so that proofs about the index need not look into the keys. */
  function DeviceKeys(devices: seq<DeviceID>): seq<string> {
    if devices == [] then [] else [DeviceKey(devices[0])] + DeviceKeys(devices[1..])
  }

  predicate Claims(p: Plugin, key: string) {
    key in DeviceKeys(p.devices)
  }

  lemma {:induction false} ClaimsItsDevices(devices: seq<DeviceID>, key: string)
    ensures key in DeviceKeys(devices) <==> exists d :: d in devices && DeviceKey(d) == key
  {
    if devices == [] {
    } else {
      ClaimsItsDevices(devices[1..], key);
      assert devices == [devices[0]] + devices[1..];
    }
  }

  /** One of the plugin's devices has that id, in whatever letter case. */
  ghost predicate Drives(p: Plugin, deviceID: string) {
    exists d :: d in p.devices && SameIgnoringCase(deviceID, d.vendor + ":" + d.device)
  }

  lemma DrivesItsClaims(p: Plugin, deviceID: string)
    ensures Claims(p, ToLower(deviceID)) <==> Drives(p, deviceID)
  {
    ClaimsItsDevices(p.devices, ToLower(deviceID));
    forall d ensures DeviceKey(d) == ToLower(deviceID) <==> SameIgnoringCase(deviceID, d.vendor + ":" + d.device) {
      LowerIsCaseless(deviceID, d.vendor + ":" + d.device);
    }
  }

  type Plugins = map<string, Plugin>

  type Index = map<string, string>

  /** The index holds every device any plugin claims, under that plugin, and nothing else. */
  ghost predicate IndexAgrees(plugins: Plugins, index: Index) {
    && (forall n, key :: n in plugins && Claims(plugins[n], key) ==> key in index && index[key] == n)
    && (forall key :: key in index ==> index[key] in plugins && Claims(plugins[index[key]], key))
  }

  lemma NoDeviceClaimedTwice(plugins: Plugins, index: Index, n: string, m: string, key: string)
    requires IndexAgrees(plugins, index)
    requires n in plugins && m in plugins && Claims(plugins[n], key) && Claims(plugins[m], key)
    ensures n == m
  {
    assert index[key] == n && index[key] == m;
  }

  /** There is only one index that agrees with the plugins. */
  lemma IndexIsDetermined(plugins: Plugins, index: Index, index': Index)
    requires IndexAgrees(plugins, index) && IndexAgrees(plugins, index')
    ensures index == index'
  {
    forall key ensures Find(index, key) == Find(index', key) {
      if key in index { assert Claims(plugins[index[key]], key); }
      if key in index' { assert Claims(plugins[index'[key]], key); }
    }
    SameMap(index, index');
  }

  /** None of the plugin's devices is one of a registered plugin. */
  ghost predicate DrivenByNone(plugins: Plugins, p: Plugin) {
    forall n, d :: n in plugins && d in p.devices ==> !Drives(plugins[n], d.vendor + ":" + d.device)
  }

  lemma FreeIff(plugins: Plugins, index: Index, p: Plugin)
    requires IndexAgrees(plugins, index)
    ensures DrivenByNone(plugins, p) <==> forall key :: key in DeviceKeys(p.devices) ==> key !in index
  {
    if DrivenByNone(plugins, p) {
      forall key | key in DeviceKeys(p.devices) ensures key !in index {
        ClaimsItsDevices(p.devices, key);
        var d :| d in p.devices && DeviceKey(d) == key;
        if key in index { DrivesItsClaims(plugins[index[key]], d.vendor + ":" + d.device); }
      }
    } else {
      var n, d :| n in plugins && d in p.devices && Drives(plugins[n], d.vendor + ":" + d.device);
      ClaimsItsDevices(p.devices, DeviceKey(d));
      DrivesItsClaims(plugins[n], d.vendor + ":" + d.device);
    }
  }

  method NoneIn(keys: seq<string>, index: Index) returns (free: bool)
    ensures free <==> forall key :: key in keys ==> key !in index
  {
    for i := 0 to |keys|
      invariant forall j :: 0 <= j < i ==> keys[j] !in index
    {
      if keys[i] in index { return false; }
    }
    return true;
  }

  method PutAll(index: Index, keys: seq<string>, name: string) returns (index': Index)
    ensures forall key :: Find(index', key) == if key in keys then Some(name) else Find(index, key)
  {
    index' := index;
    for i := 0 to |keys|
      invariant forall key :: Find(index', key) == if key in keys[..i] then Some(name) else Find(index, key)
    {
      index' := index'[keys[i] := name];
      assert keys[..i + 1] == keys[..i] + [keys[i]];
    }
    assert keys[..|keys|] == keys;
  }

  /** Only entries of that name go. */
  ghost function Removed(index: Index, keys: seq<string>, name: string, key: string): Option<string> {
    if key in keys && Find(index, key) == Some(name) then None else Find(index, key)
  }

  method RemoveAll(index: Index, keys: seq<string>, name: string) returns (index': Index)
    ensures forall key :: Find(index', key) == Removed(index, keys, name, key)
  {
    index' := index;
    for i := 0 to |keys|
      invariant forall key :: Find(index', key) == Removed(index, keys[..i], name, key)
    {
      ghost var before := index';
      assert Find(index', keys[i]) in {None, Find(index, keys[i])};
      if keys[i] in index' && index'[keys[i]] == name {
        index' := index' - {keys[i]};
      }
      assert keys[..i + 1] == keys[..i] + [keys[i]];
      forall key ensures Find(index', key) == Removed(index, keys[..i + 1], name, key) {
        assert Find(before, key) == Removed(index, keys[..i], name, key);
      }
    }
    assert keys[..|keys|] == keys;
  }

  class Registry {
    var plugins: Plugins
    var deviceIndex: Index

    ghost predicate Valid()
      reads this
    {
      && (forall n :: n in plugins ==> n != "" && plugins[n].name == n)
      && IndexAgrees(plugins, deviceIndex)
    }

    constructor ()
      ensures Valid() && plugins == map[] && deviceIndex == map[]
    {
      plugins, deviceIndex := map[], map[];
    }

    /** A plugin is taken unless its name is empty or known, or one of its devices is claimed. */
    method Register(p: Option<Plugin>) returns (ok: bool)
      requires Valid()
      modifies this
      ensures Valid()
      ensures ok <==>
        && p.Some? && p.value.name != "" && p.value.name !in old(plugins)
        && DrivenByNone(old(plugins), p.value)
      ensures ok ==> plugins == old(plugins)[p.value.name := p.value]
      ensures !ok ==> plugins == old(plugins) && deviceIndex == old(deviceIndex)
    {
      if p == None { return false; }
      var info := p.value;
      if info.name == "" || info.name in plugins { return false; }
      var free := NoneIn(DeviceKeys(info.devices), deviceIndex);
      FreeIff(plugins, deviceIndex, info);
      if !free { return false; }
      plugins := plugins[info.name := info];
      deviceIndex := PutAll(deviceIndex, DeviceKeys(info.devices), info.name);
      IndexWith(old(plugins), old(deviceIndex), info, deviceIndex);
      return true;
    }

    method Unregister(name: string) returns (ok: bool)
      requires Valid()
      modifies this
      ensures Valid()
      ensures ok <==> name in old(plugins)
      ensures plugins == old(plugins) - {name}
    {
      if name !in plugins { return false; }
      var info := plugins[name];
      deviceIndex := RemoveAll(deviceIndex, DeviceKeys(info.devices), name);
      plugins := plugins - {name};
      forall key ensures Find(deviceIndex, key) == if Claims(info, key) then None else old(Find(deviceIndex, key)) {
        assert Claims(info, key) ==> old(deviceIndex)[key] == name;
      }
      IndexWithout(old(plugins), old(deviceIndex), name, deviceIndex);
      return true;
    }

    /** The plugin that claims the device, found as by scanning all plugins; letter case is ignored. */
    method GetByDeviceID(deviceID: string) returns (p: Option<Plugin>)
      requires Valid()
      ensures p.Some? ==>
        p.value.name in plugins && plugins[p.value.name] == p.value && Claims(p.value, ToLower(deviceID))
      ensures p.Some? <==> exists n :: n in plugins && Claims(plugins[n], ToLower(deviceID))
      ensures forall n :: n in plugins ==> (Drives(plugins[n], deviceID) <==> p == Some(plugins[n]))
    {
      forall n | n in plugins ensures Claims(plugins[n], ToLower(deviceID)) <==> Drives(plugins[n], deviceID) {
        DrivesItsClaims(plugins[n], deviceID);
      }
      var key := ToLower(deviceID);
      if key in deviceIndex { return Some(plugins[deviceIndex[key]]); }
      return None;
    }

    method GetByVendorDevice(vendor: string, device: string) returns (p: Option<Plugin>)
      requires Valid()
      ensures p.Some? ==> p.value.name in plugins && plugins[p.value.name] == p.value
      ensures forall n :: n in plugins ==>
        (Drives(plugins[n], vendor + ":" + device) <==> p == Some(plugins[n]))
    {
      p := GetByDeviceID(vendor + ":" + device);
    }

    method Clear()
      modifies this
      ensures Valid() && plugins == map[]
    {
      plugins, deviceIndex := map[], map[];
    }

    /** Taking a plugin in and out again restores both maps. */
    method RegisterThenUnregister(p: Plugin) returns (taken: bool)
      requires Valid()
      modifies this
      ensures plugins == old(plugins) && deviceIndex == old(deviceIndex)
    {
      taken := Register(Some(p));
      if taken {
        var _ := Unregister(p.name);
        assert plugins == old(plugins);
        IndexIsDetermined(plugins, deviceIndex, old(deviceIndex));
      }
    }

    /** All plugins in order of their names. */
    method List() returns (result: seq<Plugin>)
      requires Valid()
      ensures SortedByName(result)
      ensures forall p :: p in result <==> p.name in plugins && plugins[p.name] == p
    {
      result := [];
      var todo := plugins.Keys;
      while todo != {}
        invariant todo <= plugins.Keys
        invariant SortedByName(result)
        invariant forall p :: p in result <==> p.name in plugins && p.name !in todo && plugins[p.name] == p
        decreases todo
      {
        var n :| n in todo;
        todo := todo - {n};
        result := InsertByName(result, plugins[n]);
      }
    }
  }

  lemma IndexWith(plugins: Plugins, index: Index, p: Plugin, index': Index)
    requires IndexAgrees(plugins, index) && p.name !in plugins
    requires forall key :: Claims(p, key) ==> key !in index
    requires forall key :: Find(index', key) == if Claims(p, key) then Some(p.name) else Find(index, key)
    ensures IndexAgrees(plugins[p.name := p], index')
  {
    var plugins' := plugins[p.name := p];
    forall n, key | n in plugins' && Claims(plugins'[n], key) ensures key in index' && index'[key] == n {
      assert Find(index', key) == if Claims(p, key) then Some(p.name) else Find(index, key);
    }
    forall key | key in index' ensures index'[key] in plugins' && Claims(plugins'[index'[key]], key) {
      assert Find(index', key) == if Claims(p, key) then Some(p.name) else Find(index, key);
    }
  }

  lemma IndexWithout(plugins: Plugins, index: Index, name: string, index': Index)
    requires IndexAgrees(plugins, index) && name in plugins
    requires forall key :: Find(index', key) == if Claims(plugins[name], key) then None else Find(index, key)
    ensures IndexAgrees(plugins - {name}, index')
  {
    var plugins' := plugins - {name};
    forall n, key | n in plugins' && Claims(plugins'[n], key) ensures key in index' && index'[key] == n {
      assert n != name && plugins'[n] == plugins[n];
      assert index[key] == n && !Claims(plugins[name], key);
      assert Find(index', key) == Find(index, key);
    }
    forall key | key in index' ensures index'[key] in plugins' && Claims(plugins'[index'[key]], key) {
      assert Find(index', key) == if Claims(plugins[name], key) then None else Find(index, key);
      assert !Claims(plugins[name], key) && index[key] == index'[key] != name;
    }
  }

  /* ----- order of names ----- */

  predicate Less(a: string, b: string) {
    b != "" && (a == "" || a[0] < b[0] || (a[0] == b[0] && Less(a[1..], b[1..])))
  }

  /** The names agree up to there, where the first one ends or has the smaller byte. */
  ghost predicate DifferAt(a: string, b: string, k: int) {
    0 <= k <= |a| && k < |b| && a[..k] == b[..k] && (k == |a| || a[k] < b[k])
  }

  lemma {:induction false} LessAtFirstDifference(a: string, b: string)
    ensures Less(a, b) <==> exists k :: DifferAt(a, b, k)
  {
    if a == "" || b == "" || a[0] != b[0] {
      assert DifferAt(a, b, 0) <==> Less(a, b);
      forall k | 0 < k <= |a| && k < |b| ensures a[..k] != b[..k] {
        assert a[..k][0] == a[0] && b[..k][0] == b[0];
      }
    } else {
      LessAtFirstDifference(a[1..], b[1..]);
      if k :| DifferAt(a[1..], b[1..], k) {
        assert a[..k + 1] == [a[0]] + a[1..][..k] && b[..k + 1] == [b[0]] + b[1..][..k];
        assert DifferAt(a, b, k + 1);
      }
      if k :| DifferAt(a, b, k) {
        assert a[1..][..k - 1] == a[..k][1..] && b[1..][..k - 1] == b[..k][1..];
        assert DifferAt(a[1..], b[1..], k - 1);
      }
    }
  }

  lemma {:induction false} LessIsTotal(a: string, b: string)
    ensures a != b ==> Less(a, b) || Less(b, a)
    ensures !(Less(a, b) && Less(b, a)) && !Less(a, a)
  {
    if a == "" {
    } else {
      LessIsTotal(a[1..], a[1..]);
      if b != "" && a[0] == b[0] {
        LessIsTotal(a[1..], b[1..]);
        assert a == [a[0]] + a[1..] && b == [b[0]] + b[1..];
      }
    }
  }

  lemma {:induction false} LessIsTransitive(a: string, b: string, c: string)
    requires Less(a, b) && Less(b, c)
    ensures Less(a, c)
  {
    if a == "" || a[0] != b[0] || b[0] != c[0] {
    } else {
      LessIsTransitive(a[1..], b[1..], c[1..]);
    }
  }

  predicate SortedByName(ps: seq<Plugin>) {
    forall i, j :: 0 <= i < j < |ps| ==> Less(ps[i].name, ps[j].name)
  }

  method InsertByName(ps: seq<Plugin>, p: Plugin) returns (result: seq<Plugin>)
    requires SortedByName(ps) && forall q :: q in ps ==> q.name != p.name
    ensures SortedByName(result)
    ensures forall q :: q in result <==> q in ps || q == p
  {
    var i := 0;
    while i < |ps| && Less(ps[i].name, p.name)
      invariant i <= |ps|
      invariant forall j :: 0 <= j < i ==> Less(ps[j].name, p.name)
    {
      i := i + 1;
    }
    forall j | i <= j < |ps| ensures Less(p.name, ps[j].name) {
      LessIsTotal(p.name, ps[i].name);
      if i < j { LessIsTransitive(p.name, ps[i].name, ps[j].name); }
    }
    result := ps[..i] + [p] + ps[i..];
  }

  /** There is one way to list a set of plugins in strict order of names. */
  lemma {:induction false} SortedListIsUnique(ps: seq<Plugin>, qs: seq<Plugin>)
    requires SortedByName(ps) && SortedByName(qs)
    requires forall p :: p in ps <==> p in qs
    ensures ps == qs
    decreases |ps|
  {
    assert ps != [] ==> ps[0] in qs;
    assert qs != [] ==> qs[0] in ps;
    if ps == [] {
    } else {
      assert ps[0] in qs && qs[0] in ps;
      LessIsTotal(ps[0].name, qs[0].name);
      assert ps[0] == qs[0];
      forall p ensures p in ps[1..] <==> p in qs[1..] {
        LessIsTotal(ps[0].name, ps[0].name);
        assert p in ps[1..] ==> p in ps && p != ps[0];
        assert p in qs[1..] ==> p in qs && p != qs[0];
      }
      SortedListIsUnique(ps[1..], qs[1..]);
    }
  }
}
