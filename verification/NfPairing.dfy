/** Network functions on the DPU side: the first two interfaces of a namespace make one, and it goes
    when the second to last of them goes. */
module NfPairing {
  import opened Common
  import opened Sessions

  datatype MacPair = MacPair(first: string, second: string)

  type Macs = map<string, seq<string>>

  function MacsOf(store: Macs, netns: string): seq<string> {
    if netns in store then store[netns] else []
  }

  function PairOf(macs: seq<string>): Option<MacPair> {
    if |macs| >= 2 then Some(MacPair(macs[0], macs[1])) else None
  }

  datatype Request = Add(netns: string, mac: string) | Del(netns: string)

  /** What a request that does not fail makes of the store: a MAC more at the end, or one less. */
  function Step(store: Macs, r: Request): Macs {
    match r
    case Add(netns, mac) => store[netns := MacsOf(store, netns) + [mac]]
    case Del(netns) =>
      var macs := MacsOf(store, netns);
      if macs == [] then store else store[netns := macs[..|macs| - 1]]
  }

  ghost function After(store: Macs, requests: seq<Request>): Macs {
    if requests == [] then store
    else
      var n := |requests| - 1;
      Step(After(store, requests[..n]), requests[n])
  }

  /** The call a request that does not fail makes to the vendor plugin. */
  function CallOf(store: Macs, r: Request): seq<Event<string, MacPair>> {
    var macs := MacsOf(store, r.netns);
    match r
    case Add(netns, mac) => if |macs| == 1 then [Opened(netns, MacPair(macs[0], mac))] else []
    case Del(netns) => if |macs| == 2 then [Closed(netns, MacPair(macs[0], macs[1]))] else []
  }

  ghost function CallsOf(store: Macs, requests: seq<Request>): seq<Event<string, MacPair>> {
    if requests == [] then []
    else
      var n := |requests| - 1;
      CallsOf(store, requests[..n]) + CallOf(After(store, requests[..n]), requests[n])
  }

  /** The requests whose one command, moving the link, succeeds. */
  ghost function Succeeded(requests: seq<Request>, script: seq<bool>): seq<Request> {
    if requests == [] then []
    else
      var n := |requests| - 1;
      Succeeded(requests[..n], script) + if Works(Drop(script, n)) then [requests[n]] else []
  }

  lemma {:induction false} AllSucceed(requests: seq<Request>)
    ensures Succeeded(requests, []) == requests
  {
    if requests == [] {
    } else {
      AllSucceed(requests[..|requests| - 1]);
    }
  }

  /* ----- counting requests ----- */

  ghost function Adds(requests: seq<Request>, netns: string): nat {
    if requests == [] then 0
    else
      var n := |requests| - 1;
      Adds(requests[..n], netns) + if requests[n].Add? && requests[n].netns == netns then 1 else 0
  }

  ghost function Dels(requests: seq<Request>, netns: string): nat {
    if requests == [] then 0
    else
      var n := |requests| - 1;
      Dels(requests[..n], netns) + if requests[n].Del? && requests[n].netns == netns then 1 else 0
  }

  /** How many interfaces a namespace has after `n` of the requests, starting with that many: an add
      counts up, a delete down. */
  ghost function Depth(start: nat, requests: seq<Request>, netns: string, n: nat): nat
    requires n <= |requests|
  {
    if n == 0 then start
    else
      var before := Depth(start, requests, netns, n - 1);
      if requests[n - 1].netns != netns then before
      else if requests[n - 1].Add? then before + 1
      else if before > 0 then before - 1
      else 0
  }

  ghost predicate StaysAbove(start: nat, requests: seq<Request>, netns: string, from: nat, k: nat) {
    forall n: nat :: from <= n <= |requests| ==> Depth(start, requests, netns, n) > k
  }

  /** Request `j` added the MAC on top of `k` others, and it was not deleted since. */
  ghost predicate AddedAt(start: nat, requests: seq<Request>, netns: string, k: nat, mac: string, j: nat) {
    && j < |requests| && requests[j] == Add(netns, mac) && Depth(start, requests, netns, j) == k
    && StaysAbove(start, requests, netns, j + 1, k)
  }

  /** Where the MAC with `k` others below it comes from. */
  ghost predicate Origin(was: seq<string>, requests: seq<Request>, netns: string, k: nat, mac: string) {
    || (k < |was| && was[k] == mac && StaysAbove(|was|, requests, netns, 0, k))
    || exists j: nat :: AddedAt(|was|, requests, netns, k, mac, j)
  }

  /** Only one MAC has that origin. */
  lemma OriginIsUnique(was: seq<string>, requests: seq<Request>, netns: string, k: nat, mac: string, mac': string)
    requires Origin(was, requests, netns, k, mac) && Origin(was, requests, netns, k, mac')
    ensures mac == mac'
  {
    if j: nat, j': nat :| AddedAt(|was|, requests, netns, k, mac, j) && AddedAt(|was|, requests, netns, k, mac', j') {
      assert !(j < j') && !(j' < j);
    }
  }

  lemma {:induction false} SameDepth(start: nat, requests: seq<Request>, r: Request, netns: string, n: nat)
    requires n <= |requests|
    ensures Depth(start, requests + [r], netns, n) == Depth(start, requests, netns, n)
  {
    if n == 0 {
    } else {
      SameDepth(start, requests, r, netns, n - 1);
    }
  }

  lemma SameDepths(start: nat, requests: seq<Request>, r: Request, netns: string)
    ensures forall n: nat :: n <= |requests| ==>
      Depth(start, requests + [r], netns, n) == Depth(start, requests, netns, n)
  {
    forall n: nat | n <= |requests|
      ensures Depth(start, requests + [r], netns, n) == Depth(start, requests, netns, n)
    {
      SameDepth(start, requests, r, netns, n);
    }
  }

  /** An interface below the top stays where it is, whatever request comes. */
  lemma OriginOneMore(was: seq<string>, init: seq<Request>, r: Request, netns: string, k: nat, mac: string)
    requires Origin(was, init, netns, k, mac) && Depth(|was|, init + [r], netns, |init| + 1) > k
    ensures Origin(was, init + [r], netns, k, mac)
  {
    SameDepths(|was|, init, r, netns);
    if j: nat :| AddedAt(|was|, init, netns, k, mac, j) {
      assert AddedAt(|was|, init + [r], netns, k, mac, j);
    }
  }

  lemma OriginOfTop(was: seq<string>, init: seq<Request>, netns: string, mac: string)
    ensures Origin(was, init + [Add(netns, mac)], netns, Depth(|was|, init, netns, |init|), mac)
  {
    SameDepths(|was|, init, Add(netns, mac), netns);
    assert AddedAt(|was|, init + [Add(netns, mac)], netns, Depth(|was|, init, netns, |init|), mac, |init|);
  }

  /** The stored MACs: their number is counted by the requests, and so is where each comes from. */
  ghost predicate Counted(was: seq<string>, requests: seq<Request>, netns: string, macs: seq<string>) {
    && |macs| == Depth(|was|, requests, netns, |requests|)
    && forall k :: 0 <= k < |macs| ==> Origin(was, requests, netns, k, macs[k])
  }

  lemma {:induction false} StoreIsCounted(store: Macs, requests: seq<Request>, netns: string)
    ensures Counted(MacsOf(store, netns), requests, netns, MacsOf(After(store, requests), netns))
  {
    if requests == [] {
    } else {
      var init, r := requests[..|requests| - 1], requests[|requests| - 1];
      StoreIsCounted(store, init, netns);
      OneMoreCounted(MacsOf(store, netns), init, r, netns, After(store, init));
      assert requests == init + [r];
    }
  }

  lemma OneMoreCounted(was: seq<string>, init: seq<Request>, r: Request, netns: string, store: Macs)
    requires Counted(was, init, netns, MacsOf(store, netns))
    ensures Counted(was, init + [r], netns, MacsOf(Step(store, r), netns))
  {
    SameDepth(|was|, init, r, netns, |init|);
    var macs := MacsOf(Step(store, r), netns);
    assert |macs| == Depth(|was|, init + [r], netns, |init| + 1);
    forall k | 0 <= k < |macs| ensures Origin(was, init + [r], netns, k, macs[k]) {
      if k < |MacsOf(store, netns)| {
        assert macs[k] == MacsOf(store, netns)[k];
        OriginOneMore(was, init, r, netns, k, macs[k]);
      } else {
        OriginOfTop(was, init, netns, macs[k]);
      }
    }
  }

  lemma OneMore(store: Macs, init: seq<Request>, r: Request, calls: seq<Event<string, MacPair>>)
    ensures After(store, init + [r]) == Step(After(store, init), r)
    ensures calls + CallsOf(store, init + [r]) == calls + CallsOf(store, init) + CallOf(After(store, init), r)
  {
    assert (init + [r])[..|init|] == init;
  }

  lemma OneMoreAdded(init: seq<Request>, r: Request, netns: string)
    ensures Adds(init + [r], netns) == Adds(init, netns) + if r.Add? && r.netns == netns then 1 else 0
    ensures Dels(init + [r], netns) == Dels(init, netns) + if r.Del? && r.netns == netns then 1 else 0
  {
    assert (init + [r])[..|init|] == init;
  }

  class DpuSideManager {
    var macStore: Macs
    /** Calls made to the vendor plugin: a network function created or deleted for a namespace. */
    var calls: seq<Event<string, MacPair>>
    const faults: Faults

    /** A network function is active exactly for the namespaces with two MACs or more, and its pair is
        the first two. */
    ghost predicate Valid()
      reads this
    {
      && Orderly(calls)
      && forall netns :: Active(calls, netns) == PairOf(MacsOf(macStore, netns))
    }

    constructor (faults: Faults)
      ensures this.faults == faults && Valid() && macStore == map[] && calls == []
    {
      this.faults, macStore, calls := faults, map[], [];
    }

    method CniCmdNfAdd(netns: string, mac: string) returns (ok: bool)
      requires Valid()
      modifies this, faults
      ensures Valid()
      ensures macStore == if ok then Step(old(macStore), Add(netns, mac)) else old(macStore)
      ensures ok ==> MacsOf(macStore, netns) == MacsOf(old(macStore), netns) + [mac]
      ensures forall other :: other != netns ==> MacsOf(macStore, other) == MacsOf(old(macStore), other)
      ensures ok == Works(old(faults.script)) && faults.script == Rest(old(faults.script))
      ensures var n := |MacsOf(old(macStore), netns)|;
        calls == old(calls) + if ok && n == 1 then [Opened(netns, MacPair(old(macStore)[netns][0], mac))] else []
    {
      ok := faults.Next();  // the link is moved in
      if !ok { return; }
      ghost var was := MacsOf(macStore, netns);
      assert Active(calls, netns) == PairOf(was);
      macStore := macStore[netns := MacsOf(macStore, netns) + [mac]];
      var macs := macStore[netns];
      if |macs| == 2 {
        OrderlyAppend(calls, Opened(netns, MacPair(macs[0], macs[1])));
        calls := calls + [Opened(netns, MacPair(macs[0], macs[1]))];
      }
    }

    /** More deletes than adds make the slice expression of the source fail. */
    method CniCmdNfDel(netns: string) returns (ok: bool)
      requires Valid() && MacsOf(macStore, netns) != []
      modifies this, faults
      ensures Valid()
      ensures macStore == if ok then Step(old(macStore), Del(netns)) else old(macStore)
      ensures ok ==> exists mac :: MacsOf(macStore, netns) + [mac] == MacsOf(old(macStore), netns)
      ensures forall other :: other != netns ==> MacsOf(macStore, other) == MacsOf(old(macStore), other)
      ensures ok == Works(old(faults.script)) && faults.script == Rest(old(faults.script))
      ensures var macs := MacsOf(old(macStore), netns);
        calls == old(calls) + if ok && |macs| == 2 then [Closed(netns, MacPair(macs[0], macs[1]))] else []
    {
      ok := faults.Next();  // the link is moved out
      if !ok { return; }
      var macs := macStore[netns];
      assert Active(calls, netns) == PairOf(macs);
      if |macs| == 2 {
        OrderlyAppend(calls, Closed(netns, MacPair(macs[0], macs[1])));
        calls := calls + [Closed(netns, MacPair(macs[0], macs[1]))];
      }
      macStore := macStore[netns := macs[..|macs| - 1]];
      assert MacsOf(macStore, netns) + [macs[|macs| - 1]] == macs;
    }

    method HandleRequest(r: Request) returns (ok: bool)
      requires Valid() && (r.Del? ==> MacsOf(macStore, r.netns) != [])
      modifies this, faults
      ensures Valid()
      ensures macStore == if ok then Step(old(macStore), r) else old(macStore)
      ensures calls == old(calls) + if ok then CallOf(old(macStore), r) else []
      ensures ok == Works(old(faults.script)) && faults.script == Rest(old(faults.script))
    {
      match r {
        case Add(netns, mac) => ok := CniCmdNfAdd(netns, mac);
        case Del(netns) => ok := CniCmdNfDel(netns);
      }
    }

    /** Any run in which a namespace is not deleted from more often than it was added to: where it is,
        the run stops. A namespace has as many MACs as it had, plus its adds, minus its deletes, and a
        network function of the first two while it has two or more. Per namespace creates and deletes
        alternate, and each delete names the pair of the create before it. */
    method Run(requests: seq<Request>) returns (handled: nat, ghost done: seq<Request>)
      requires Valid()
      modifies this, faults
      ensures Valid() && handled <= |requests| && old(calls) <= calls
      ensures handled < |requests| ==> requests[handled].Del? && MacsOf(macStore, requests[handled].netns) == []
      ensures macStore == After(old(macStore), done) && calls == old(calls) + CallsOf(old(macStore), done)
      ensures done == Succeeded(requests[..handled], old(faults.script))
      ensures old(faults.script) == [] ==> done == requests[..handled]
      ensures forall netns ::
        |MacsOf(macStore, netns)| == |MacsOf(old(macStore), netns)| + Adds(done, netns) - Dels(done, netns)
      ensures forall netns ::
        Active(calls, netns).Some? <==>
          |MacsOf(old(macStore), netns)| + Adds(done, netns) - Dels(done, netns) >= 2
      ensures forall netns :: Paired(MacsOf(old(macStore), netns), done, netns, Active(calls, netns))
      ensures forall j :: 0 <= j < |calls| && calls[j].Closed? ==>
        exists i :: 0 <= i < j && calls[i] == Opened(calls[j].key, calls[j].value) && NoneBetween(calls, i, j)
      ensures forall i, j ::
        0 <= i < j < |calls| && calls[i].Opened? && calls[j].Opened? && calls[i].key == calls[j].key ==>
        exists k :: i < k < j && calls[k] == Closed(calls[i].key, calls[i].value)
    {
      handled, done := Drive(requests);
      if old(faults.script) == [] { AllSucceed(requests[..handled]); }
      forall netns ensures Paired(MacsOf(old(macStore), netns), done, netns, Active(calls, netns)) {
        StoreIsCounted(old(macStore), done, netns);
      }
      forall j | 0 <= j < |calls| && calls[j].Closed?
        ensures exists i :: 0 <= i < j && calls[i] == Opened(calls[j].key, calls[j].value) && NoneBetween(calls, i, j)
      {
        var i := CloseMatchesOpen(calls, j);
      }
      forall i, j | 0 <= i < j < |calls| && calls[i].Opened? && calls[j].Opened? && calls[i].key == calls[j].key
        ensures exists k :: i < k < j && calls[k] == Closed(calls[i].key, calls[i].value)
      {
        ClosedBetweenOpens(calls, i, j);
      }
    }

    /** The requests, one after the other. */
    method Drive(requests: seq<Request>) returns (handled: nat, ghost done: seq<Request>)
      requires Valid()
      modifies this, faults
      ensures Valid() && handled <= |requests|
      ensures handled < |requests| ==> requests[handled].Del? && MacsOf(macStore, requests[handled].netns) == []
      ensures done == Succeeded(requests[..handled], old(faults.script))
      ensures Driven(old(macStore), old(calls), done, macStore, calls)
    {
      handled, done := 0, [];
      assert calls + CallsOf(macStore, []) == calls;
      while handled < |requests|
        invariant Valid() && handled <= |requests|
        invariant done == Succeeded(requests[..handled], old(faults.script))
        invariant faults.script == Drop(old(faults.script), handled)
        invariant Driven(old(macStore), old(calls), done, macStore, calls)
      {
        var r := requests[handled];
        if r.Del? && MacsOf(macStore, r.netns) == [] { break; }
        ghost var store, made := macStore, calls;
        var ok := HandleRequest(r);
        assert requests[..handled + 1][..handled] == requests[..handled];
        DropOne(old(faults.script), handled);
        if ok {
          DrivenOn(old(macStore), old(calls), done, store, made, r);
          done := done + [r];
        } else {
          assert made + [] == made;
        }
        handled := handled + 1;
      }
    }
  }

  /** What the requests that were done have made of the store and the log. */
  ghost predicate Driven(
    store0: Macs, calls0: seq<Event<string, MacPair>>, done: seq<Request>, store: Macs,
    calls: seq<Event<string, MacPair>>)
  {
    && store == After(store0, done) && calls == calls0 + CallsOf(store0, done)
    && forall netns :: |MacsOf(store, netns)| == |MacsOf(store0, netns)| + Adds(done, netns) - Dels(done, netns)
  }

  lemma DrivenOn(
    store0: Macs, calls0: seq<Event<string, MacPair>>, done: seq<Request>, store: Macs,
    calls: seq<Event<string, MacPair>>, r: Request)
    requires Driven(store0, calls0, done, store, calls) && (r.Del? ==> MacsOf(store, r.netns) != [])
    ensures Driven(store0, calls0, done + [r], Step(store, r), calls + CallOf(store, r))
  {
    OneMore(store0, done, r, calls0);
    forall netns
      ensures |MacsOf(Step(store, r), netns)|
        == |MacsOf(store0, netns)| + Adds(done + [r], netns) - Dels(done + [r], netns)
    {
      OneMoreAdded(done, r, netns);
      assert |MacsOf(store, netns)| == |MacsOf(store0, netns)| + Adds(done, netns) - Dels(done, netns);
    }
  }

  /** A network function is active exactly with two interfaces or more, and it is that of the lowest two. */
  ghost predicate Paired(was: seq<string>, requests: seq<Request>, netns: string, pair: Option<MacPair>) {
    && (pair.Some? <==> Depth(|was|, requests, netns, |requests|) >= 2)
    && (pair.Some? ==>
          Origin(was, requests, netns, 0, pair.value.first) && Origin(was, requests, netns, 1, pair.value.second))
  }

  ghost predicate NoneBetween(calls: seq<Event<string, MacPair>>, i: nat, j: nat)
    requires i <= j < |calls|
  {
    forall k :: i < k < j ==> calls[k].key != calls[j].key
  }
}
