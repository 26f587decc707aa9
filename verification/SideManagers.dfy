/** The life of side managers: one for each detected DPU, from the tick that first detects it to the
    tick that no longer does. */
module SideManagers {
  import opened Common
  import opened Sessions

  /** A manager, by its number, is opened for an identifier when it starts and closed by its Cancel. */
  type Log = seq<Event<string, nat>>

  /** Every manager starts once. */
  ghost predicate Numbered(events: Log, created: nat) {
    && (forall i :: 0 <= i < |events| && events[i].Opened? ==> events[i].value < created)
    && forall i, j :: 0 <= i < j < |events| && events[i].Opened? && events[j].Opened? ==>
       events[i].value != events[j].value
  }

  /** No manager is cancelled twice. */
  lemma CancelledOnce(events: Log, created: nat, i: nat, j: nat)
    requires Orderly(events) && Numbered(events, created) && i < j < |events|
    requires events[i].Closed? && events[j].Closed?
    ensures events[i].value != events[j].value
  {
    var si := CloseMatchesOpen(events, i);
    var sj := CloseMatchesOpen(events, j);
    assert events[i].value == events[j].value ==> si == sj;
  }

  lemma OpenNext(events: Log, created: nat, id: string)
    requires Orderly(events) && Numbered(events, created) && Active(events, id) == None
    ensures Orderly(events + [Opened(id, created)]) && Numbered(events + [Opened(id, created)], created + 1)
    ensures forall other ::
      Active(events + [Opened(id, created)], other) == ActiveAfter(events, Opened(id, created), other)
  {
    OrderlyAppend(events, Opened(id, created));
  }

  /** What was added to a log are closes only, or opens only. */
  predicate AllClosed(before: Log, after: Log) {
    before <= after && forall e :: e in after[|before|..] ==> e.Closed?
  }

  predicate AllOpened(before: Log, after: Log) {
    before <= after && forall e :: e in after[|before|..] ==> e.Opened?
  }

  /** Between two ticks: a manager is cancelled exactly if it runs and its DPU is gone, and started exactly
      if none ran and one does now. */
  ghost predicate TickedAt(before: Log, after: Log, id: string, detected: bool) {
    && before <= after
    && forall manager ::
      && (Closed(id, manager) in after[|before|..] <==> !detected && Active(before, id) == Some(manager))
      && (Opened(id, manager) in after[|before|..] <==>
            detected && Active(before, id) == None && Active(after, id) == Some(manager))
  }

  lemma TickIsExact(before: Log, between: Log, after: Log, id: string, detected: bool)
    requires AllClosed(before, between) && AllOpened(between, after) && Orderly(between) && Orderly(after)
    requires Active(between, id) == if detected then Active(before, id) else None
    requires !detected ==> Active(after, id) == None
    ensures TickedAt(before, after, id, detected)
  {
    var closes, opens := between[|before|..], after[|between|..];
    assert between == before + closes && after == between + opens;
    OnlyClosed(before, closes, id);
    OnlyOpened(between, opens, id);
    assert after[|before|..] == closes + opens;
    forall manager
      ensures Closed(id, manager) in after[|before|..] <==> Closed(id, manager) in closes
      ensures Opened(id, manager) in after[|before|..] <==> Opened(id, manager) in opens
    {
    }
  }

  function Names(detected: seq<string>): set<string> {
    set d | d in detected
  }

  class ManagedDpu {
    const name: string
    var manager: Option<nat>

    constructor (name: string)
      ensures this.name == name && manager == None
    {
      this.name, manager := name, None;
    }
  }

  class Daemon {
    var managed: map<string, ManagedDpu>
    var events: Log
    var created: nat
    const faults: Faults

    ghost function Running(id: string): Option<nat>
      reads this`managed, managed.Values
    {
      if id in managed then managed[id].manager else None
    }

    /** Records are kept under their own name, and the managers running are those of the records. */
    ghost predicate Valid()
      reads this, managed.Values
    {
      && (forall id :: id in managed ==> managed[id].name == id)
      && Orderly(events)
      && Numbered(events, created)
      && forall id :: Active(events, id) == Running(id)
    }

    constructor (faults: Faults)
      ensures this.faults == faults && Valid() && managed == map[] && events == []
    {
      this.faults := faults;
      managed, events, created := map[], [], 0;
    }

    method AddDetected(currentlyDetected: set<string>)
      requires Valid()
      modifies this`managed
      ensures Valid()
      ensures managed.Keys == old(managed.Keys) + currentlyDetected
      ensures forall id :: id in old(managed) ==> managed[id] == old(managed)[id]
      ensures forall id :: id in managed && id !in old(managed) ==> fresh(managed[id]) && managed[id].manager == None
    {
      var todo := currentlyDetected;
      while todo != {}
        invariant todo <= currentlyDetected && Valid()
        invariant managed.Keys == old(managed.Keys) + (currentlyDetected - todo)
        invariant forall id :: id in old(managed) ==> managed[id] == old(managed)[id]
        invariant forall id :: id in managed && id !in old(managed) ==>
          fresh(managed[id]) && managed[id].manager == None
        decreases todo
      {
        var id :| id in todo;
        todo := todo - {id};
        if id !in managed {
          var entry := new ManagedDpu(id);
          managed := managed[id := entry];
        }
      }
    }

    method RemoveUndetected(currentlyDetected: set<string>)
      requires Valid()
      modifies this`managed, this`events
      ensures Valid() && AllClosed(old(events), events)
      ensures managed == map id | id in old(managed) && id in currentlyDetected :: old(managed)[id]
    {
      var todo := managed.Keys;
      while todo != {}
        invariant todo <= managed.Keys && Valid() && AllClosed(old(events), events)
        invariant managed == map id | id in old(managed) && (id in currentlyDetected || id in todo) :: old(managed)[id]
        decreases todo
      {
        var id :| id in todo;
        todo := todo - {id};
        if id !in currentlyDetected { Remove(id); }
      }
    }

    method Remove(id: string)
      requires Valid() && id in managed
      modifies this`managed, this`events
      ensures Valid() && AllClosed(old(events), events)
      ensures managed == old(managed) - {id}
    {
      var entry := managed[id];
      if entry.manager.Some? {
        assert Running(id) == Active(events, id);
        OrderlyAppend(events, Closed(id, entry.manager.value));
        events := events + [Closed(id, entry.manager.value)];
      }
      managed := managed - {id};
    }

    method UpdateManagedDpus(detected: seq<string>)
      requires Valid()
      modifies this`managed, this`events
      ensures Valid() && AllClosed(old(events), events)
      ensures managed.Keys == Names(detected)
      ensures forall id :: id in managed && id in old(managed) ==> managed[id] == old(managed)[id]
      ensures forall id :: id in managed && id !in old(managed) ==> fresh(managed[id]) && managed[id].manager == None
    {
      var currentlyDetected := Names(detected);
      AddDetected(currentlyDetected);
      RemoveUndetected(currentlyDetected);
    }

    method StartManager(id: string) returns (ok: bool)
      requires Valid() && id in managed && managed[id].manager == None
      modifies this`events, this`created, managed[id], faults
      ensures Valid() && AllOpened(old(events), events)
      ensures managed[id].manager == if ok then Some(old(created)) else None
      ensures ok == Works(old(faults.script)) && faults.script == Rest(old(faults.script))
    {
      ok := faults.Next();
      if !ok { return; }
      var entry := managed[id];
      assert Active(events, id) == Running(id);
      OpenNext(events, created, id);
      entry.manager := Some(created);
      events := events + [Opened(id, created)];
      created := created + 1;
    }

    /** A manager that cannot be created ends the serve loop; the state stays valid. */
    method CreateManagers() returns (ok: bool)
      requires Valid()
      modifies this`events, this`created, managed.Values, faults
      ensures Valid() && AllOpened(old(events), events)
      ensures ok ==> forall id :: id in managed ==> managed[id].manager.Some?
      ensures forall id :: id in managed && old(managed[id].manager).Some? ==>
        managed[id].manager == old(managed[id].manager)
      ensures old(faults.script) == [] ==> ok && faults.script == []
    {
      var todo := managed.Keys;
      while todo != {}
        invariant todo <= managed.Keys && Valid() && AllOpened(old(events), events)
        invariant forall id :: id in managed && id !in todo ==> managed[id].manager.Some?
        invariant forall id :: id in managed && old(managed[id].manager).Some? ==>
          managed[id].manager == old(managed[id].manager)
        invariant old(faults.script) == [] ==> faults.script == []
        decreases todo
      {
        var id :| id in todo;
        todo := todo - {id};
        if managed[id].manager == None {
          ok := StartManager(id);
          if !ok { return; }
        }
      }
      ok := true;
    }

    method Tick(detected: seq<string>) returns (ok: bool)
      requires Valid()
      modifies this, managed.Values, faults
      ensures Valid() && old(events) <= events
      ensures managed.Keys == Names(detected)
      ensures ok ==> forall id :: id in managed ==> managed[id].manager.Some?
      ensures forall id :: id in managed && id in old(managed) ==> managed[id] == old(managed)[id]
      ensures forall id :: id in managed && id in old(managed) && old(managed[id].manager).Some? ==>
        managed[id].manager == old(managed[id].manager)
      ensures forall id :: id in managed && id !in old(managed) ==> fresh(managed[id])
      ensures forall id :: TickedAt(old(events), events, id, id in Names(detected))
      ensures old(faults.script) == [] ==> ok && faults.script == []
    {
      UpdateManagedDpus(detected);
      ghost var between := events;
      ok := CreateManagers();
      forall id ensures TickedAt(old(events), events, id, id in Names(detected)) {
        TickIsExact(old(events), between, events, id, id in Names(detected));
      }
    }

    /** Ticks until one fails. In the log of any run no manager is cancelled twice and two starts for
        one identifier have the cancel of the first between them; what is started and not cancelled is
        what the present records run. */
    method Serve(detections: seq<seq<string>>) returns (ticks: nat)
      requires Valid()
      modifies this, managed.Values, faults
      ensures Valid() && old(events) <= events && ticks <= |detections|
      ensures ticks == |detections| > 0 ==>
        && managed.Keys == Names(detections[ticks - 1])
        && forall id :: Active(events, id).Some? <==> id in detections[ticks - 1]
      ensures forall i, j :: 0 <= i < j < |events| && events[i].Closed? && events[j].Closed? ==>
        events[i].value != events[j].value
      ensures forall i, j ::
        0 <= i < j < |events| && events[i].Opened? && events[j].Opened? && events[i].key == events[j].key ==>
        exists k :: i < k < j && events[k] == Closed(events[i].key, events[i].value)
      ensures old(faults.script) == [] ==> ticks == |detections|
    {
      ticks := 0;
      while ticks < |detections|
        invariant Valid() && old(events) <= events && ticks <= |detections|
        invariant forall id :: id in managed ==> fresh(managed[id]) || managed[id] in old(managed.Values)
        invariant ticks > 0 ==> managed.Keys == Names(detections[ticks - 1])
        invariant ticks > 0 ==> forall id :: id in managed ==> managed[id].manager.Some?
        invariant old(faults.script) == [] ==> faults.script == []
      {
        var ok := Tick(detections[ticks]);
        if !ok { break; }
        ticks := ticks + 1;
      }
      forall i, j | 0 <= i < j < |events| && events[i].Closed? && events[j].Closed?
        ensures events[i].value != events[j].value
      {
        CancelledOnce(events, created, i, j);
      }
      forall i, j | 0 <= i < j < |events| && events[i].Opened? && events[j].Opened? && events[i].key == events[j].key
        ensures exists k :: i < k < j && events[k] == Closed(events[i].key, events[i].value)
      {
        ClosedBetweenOpens(events, i, j);
      }
      assert forall id :: Active(events, id) == Running(id);
    }
  }
}
