/** The last stage of the VF-count pipeline: the daemon sets the VF counts it reads, each once. */
module VfApply {
  import opened Common
  import opened VfCount

  /** `setTo` is the count last set through the vendor plugin. */
  class ManagedDpu {
    const isDpuSide: bool
    var setTo: Option<int>

    constructor (isDpuSide: bool)
      ensures this.isDpuSide == isDpuSide && setTo == None
    {
      this.isDpuSide, setTo := isDpuSide, None;
    }
  }

  function CrNamed(dpus: seq<Dpu>, name: string): (cr: Option<Dpu>)
    ensures cr.Some? ==> cr.value in dpus && cr.value.name == name
    ensures cr.None? ==> forall p :: p in dpus ==> p.name != name
  {
    if dpus == [] then None
    else if dpus[0].name == name then Some(dpus[0])
    else CrNamed(dpus[1..], name)
  }

  /** The annotations of the CR of that name say `v` and nothing else. */
  ghost predicate Desires(dpus: seq<Dpu>, name: string, v: int) {
    CrNamed(dpus, name).Some? && SaysOnly(CrNamed(dpus, name).value.annotations, v)
  }

  ghost predicate AsDesired(dpus: seq<Dpu>, name: string, setTo: Option<int>) {
    forall v :: Desires(dpus, name, v) ==> setTo == Some(v)
  }

  lemma OneDesire(dpus: seq<Dpu>, name: string, v: int, w: int)
    requires Desires(dpus, name, v) && Desires(dpus, name, w)
    ensures v == w
  {
    var a := CrNamed(dpus, name).value.annotations;
    var k :| k in a && IsVfKey(k);
    assert CountAt(a, k) == Some(v);
  }

  type Calls = seq<(string, int)>

  ghost predicate NotCalled(calls: Calls, name: string) {
    forall i :: 0 <= i < |calls| ==> calls[i].0 != name
  }

  ghost predicate SetBy(calls: Calls, name: string, setTo: Option<int>) {
    setTo.Some? && (name, setTo.value) in calls
  }

  /** Every call sets what the annotations say, and there is one call for a DPU at most. */
  ghost predicate OnceEach(dpus: seq<Dpu>, calls: Calls) {
    && (forall i :: 0 <= i < |calls| ==> Desires(dpus, calls[i].0, calls[i].1))
    && forall i, j :: 0 <= i < j < |calls| ==> calls[i].0 != calls[j].0
  }

  lemma CalledOnce(dpus: seq<Dpu>, calls: Calls, name: string, v: int)
    requires OnceEach(dpus, calls) && NotCalled(calls, name) && Desires(dpus, name, v)
    ensures OnceEach(dpus, calls + [(name, v)])
    ensures forall n :: NotCalled(calls, n) && n != name ==> NotCalled(calls + [(name, v)], n)
  {
  }

  type SetCounts = map<string, Option<int>>

  /** Nothing is left to set. */
  ghost predicate UpToDate(dpus: seq<Dpu>, host: set<string>, setTos: SetCounts) {
    forall n :: n in setTos && n in host ==> AsDesired(dpus, n, setTos[n])
  }

  /** A pass over the managed DPUs that is through with those `done`. */
  ghost predicate Passed(
    dpus: seq<Dpu>, host: set<string>, done: set<string>, was: SetCounts, now: SetCounts, made: Calls, works: bool)
  {
    && now.Keys == was.Keys && OnceEach(dpus, made)
    && (forall n :: n in was && n !in done ==> NotCalled(made, n) && now[n] == was[n])
    && (forall n :: n in was ==> now[n] == was[n] || SetBy(made, n, now[n]))
    && (works ==> forall n :: n in was && n in done && n in host ==> AsDesired(dpus, n, now[n]))
    && (UpToDate(dpus, host, was) ==> made == [])
  }

  lemma NonePassed(dpus: seq<Dpu>, host: set<string>, was: SetCounts, works: bool)
    ensures Passed(dpus, host, {}, was, was, [], works)
  {
  }

  lemma PassedAll(dpus: seq<Dpu>, host: set<string>, was: SetCounts, now: SetCounts, made: Calls, works: bool)
    requires Passed(dpus, host, was.Keys, was, now, made, works)
    ensures now.Keys == was.Keys && OnceEach(dpus, made)
    ensures forall n :: n in now ==> now[n] == was[n] || SetBy(made, n, now[n])
    ensures works ==> UpToDate(dpus, host, now)
    ensures UpToDate(dpus, host, was) ==> made == []
  {
  }

  lemma PassedOne(
    dpus: seq<Dpu>, host: set<string>, done: set<string>, was: SetCounts, before: SetCounts, now: SetCounts,
    made: Calls, n: string, call: Option<int>, works: bool)
    requires Passed(dpus, host, done, was, before, made, works)
    requires n in was && n !in done && now == before[n := if call.Some? then call else before[n]]
    requires call.Some? ==> Desires(dpus, n, call.value) && n in host && before[n] != call
    requires works && n in host ==> AsDesired(dpus, n, now[n])
    ensures Passed(
      dpus, host, done + {n}, was, now, made + if call.Some? then [(n, call.value)] else [], works)
  {
    if call.Some? { CalledOnce(dpus, made, n, call.value); }
  }

  class Daemon {
    var managed: map<string, ManagedDpu>
    /** The SetNumVfs calls that succeeded. */
    var calls: Calls
    const faults: Faults

    ghost predicate Valid()
      reads this
    {
      forall n, m :: n in managed && m in managed && managed[n] == managed[m] ==> n == m
    }

    constructor (faults: Faults)
      ensures this.faults == faults && Valid() && managed == map[] && calls == []
    {
      this.faults, managed, calls := faults, map[], [];
    }

    ghost function SetTos(): SetCounts
      reads this, managed.Values
    {
      map n | n in managed :: managed[n].setTo
    }

    ghost function HostSide(): set<string>
      reads this, managed.Values
    {
      set n | n in managed && !managed[n].isDpuSide
    }

    method ApplyOne(dpus: seq<Dpu>, n: string) returns (ghost call: Option<int>)
      requires Valid() && n in managed
      modifies this`calls, managed[n], faults
      ensures HostSide() == old(HostSide())
      ensures SetTos() == old(SetTos())[n := if call.Some? then call else old(SetTos())[n]]
      ensures calls == old(calls) + if call.Some? then [(n, call.value)] else []
      ensures call.Some? ==> Desires(dpus, n, call.value) && n in HostSide() && old(SetTos())[n] != call
      ensures old(faults.script) == [] ==>
        faults.script == [] && (n in HostSide() ==> AsDesired(dpus, n, SetTos()[n]))
    {
      call := None;
      if managed[n].isDpuSide { return; }
      var ok := faults.Next();  // get
      var cr := CrNamed(dpus, n);
      if !ok || cr.None? { return; }
      var desired := DesiredVfCount(cr.value.annotations);
      if !desired.Count? { return; }
      assert Desires(dpus, n, desired.value);
      forall v | Desires(dpus, n, v) ensures v == desired.value { OneDesire(dpus, n, v, desired.value); }
      if managed[n].setTo == Some(desired.value) { return; }
      ok := faults.Next();  // SetNumVfs
      if !ok { return; }
      calls := calls + [(n, desired.value)];
      managed[n].setTo := Some(desired.value);
      call := Some(desired.value);
    }

    /** For every iteration order: a count is only set where the annotations say it and it is not set
        already; while nothing fails all are, and a second pass sets none. */
    method ApplyDesiredVfCounts(dpus: seq<Dpu>)
      requires Valid()
      modifies this`calls, managed.Values, faults
      ensures old(calls) <= calls && OnceEach(dpus, calls[|old(calls)|..])
      ensures SetTos().Keys == old(SetTos()).Keys
      ensures forall n :: n in SetTos() ==>
        SetTos()[n] == old(SetTos())[n] || SetBy(calls[|old(calls)|..], n, SetTos()[n])
      ensures old(faults.script) == [] ==> faults.script == [] && UpToDate(dpus, HostSide(), SetTos())
      ensures old(UpToDate(dpus, HostSide(), SetTos())) ==> calls == old(calls)
    {
      ghost var made := Pass(dpus);
      PassedAll(dpus, old(HostSide()), old(SetTos()), SetTos(), made, old(faults.script) == []);
    }

    /** The loop. */
    method Pass(dpus: seq<Dpu>) returns (ghost made: Calls)
      requires Valid()
      modifies this`calls, managed.Values, faults
      ensures calls == old(calls) + made && HostSide() == old(HostSide())
      ensures Passed(dpus, old(HostSide()), managed.Keys, old(SetTos()), SetTos(), made, old(faults.script) == [])
      ensures old(faults.script) == [] ==> faults.script == []
    {
      var todo := managed.Keys;
      ghost var was, host, works := SetTos(), HostSide(), faults.script == [];
      made := [];
      NonePassed(dpus, host, was, works);
      assert managed.Keys - todo == {};
      while todo != {}
        invariant todo <= managed.Keys && calls == old(calls) + made && HostSide() == host
        invariant Passed(dpus, host, managed.Keys - todo, was, SetTos(), made, works)
        invariant works ==> faults.script == []
        decreases todo
      {
        var n :| n in todo;
        assert managed.Keys - (todo - {n}) == managed.Keys - todo + {n};
        made := PassOne(dpus, n, host, managed.Keys - todo, was, old(calls), made, works);
        todo := todo - {n};
      }
      assert managed.Keys - todo == managed.Keys;
    }

    method PassOne(dpus: seq<Dpu>, n: string, ghost host: set<string>, ghost done: set<string>, ghost was: SetCounts,
        ghost calls0: Calls, ghost made: Calls, ghost works: bool)
      returns (ghost made': Calls)
      requires Valid() && n in managed && n !in done && HostSide() == host && calls == calls0 + made
      requires Passed(dpus, host, done, was, SetTos(), made, works) && (works ==> faults.script == [])
      modifies this`calls, managed[n], faults
      ensures HostSide() == host && calls == calls0 + made'
      ensures Passed(dpus, host, done + {n}, was, SetTos(), made', works)
      ensures works ==> faults.script == []
    {
      ghost var before := SetTos();
      ghost var call := ApplyOne(dpus, n);
      PassedOne(dpus, host, done, was, before, SetTos(), made, n, call, works);
      made' := made + if call.Some? then [(n, call.value)] else [];
    }
  }

  /** The configs that select the DPU of that name and set a count all set `v`, and there is one. */
  ghost predicate AgreeOn(cs: seq<Config>, dpus: seq<Dpu>, n: string, v: int) {
    CrNamed(dpus, n).Some? && CorrectReading(cs, CrNamed(dpus, n).value.labels, Count(v))
  }

  lemma {:induction false} SameDpuNamed(before: seq<Dpu>, after: seq<Dpu>, n: string)
    requires SameDpus(before, after)
    ensures CrNamed(before, n).Some? <==> CrNamed(after, n).Some?
    ensures CrNamed(before, n).Some? ==> CrNamed(before, n).value.labels == CrNamed(after, n).value.labels
  {
    if before == [] {
    } else {
      assert after[0] == before[0].(annotations := after[0].annotations);
      forall i | 0 <= i < |after[1..]|
        ensures after[1..][i] == before[1..][i].(annotations := after[1..][i].annotations)
      {
        assert after[i + 1] == before[i + 1].(annotations := after[i + 1].annotations);
      }
      SameDpuNamed(before[1..], after[1..], n);
    }
  }

  /** From configs to VFs: once every config was reconciled twice with success and the daemon made one
      pass, each managed host-side DPU has the count that the configs selecting it agree on. */
  method Pipeline(cluster: Cluster, daemon: Daemon, cs: seq<Config>, schedule: seq<nat>) returns (done: seq<nat>)
    requires Distinct(cs) && Int32Counts(cs) && Indexes(schedule, |cs|)
    requires forall p :: p in cluster.dpus ==> ClashFree(cs, p.labels) && OwnKeysOnly(cs, p.annotations)
    requires daemon.Valid() && daemon.faults.script == []
    modifies cluster, cluster.faults, daemon`calls, daemon.managed.Values, daemon.faults
    ensures SameDpus(old(cluster.dpus), cluster.dpus)
    ensures Covered(cs, done) ==> forall n, v ::
      n in daemon.managed && !daemon.managed[n].isDpuSide && AgreeOn(cs, old(cluster.dpus), n, v) ==>
      daemon.managed[n].setTo == Some(v)
    ensures old(cluster.faults.script) == [] ==> done == schedule
  {
    done := ReconcileAll(cluster, cs, schedule);
    daemon.ApplyDesiredVfCounts(cluster.dpus);
    forall n, v | Covered(cs, done) && n in daemon.managed && !daemon.managed[n].isDpuSide
        && AgreeOn(cs, old(cluster.dpus), n, v)
      ensures daemon.managed[n].setTo == Some(v)
    {
      SameDpuNamed(old(cluster.dpus), cluster.dpus, n);
      assert ReadsAs(CrNamed(cluster.dpus, n).value.annotations, Count(v));
      assert Desires(cluster.dpus, n, v);
      assert n in daemon.SetTos() && n in daemon.HostSide();
    }
  }
}
