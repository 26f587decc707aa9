/** The network functions that the pairing of MACs asks for, served by the Marvell plugin. */
module NfServed {
  import opened Common
  import opened Sessions
  import opened MarvellFlows
  import opened MarvellVsp
  import M = MarvellRuns
  import opened NfPairing

  type Calls = seq<Event<string, MacPair>>

  function RequestOf(call: Event<string, MacPair>): M.Request {
    if call.Opened? then M.CreateNf(call.value.first, call.value.second)
    else M.DeleteNf(call.value.first, call.value.second)
  }

  function RequestsOf(calls: Calls): (rs: seq<M.Request>)
    ensures |rs| == |calls|
  {
    if calls == [] then []
    else RequestsOf(calls[..|calls| - 1]) + [RequestOf(calls[|calls| - 1])]
  }

  /** Both MACs are of different devices of the plugin. */
  ghost predicate Known(w: Wiring, calls: Calls) {
    forall i :: 0 <= i < |calls| && calls[i].Opened? ==> M.KnownPair(w, calls[i].value.first, calls[i].value.second)
  }

  ghost predicate OneActive(calls: Calls) {
    forall a, b :: Active(calls, a).Some? && Active(calls, b).Some? ==> a == b
  }

  /** At no moment two namespaces have an active network function. */
  ghost predicate OneAtATime(calls: Calls) {
    forall n :: 0 <= n <= |calls| ==> OneActive(calls[..n])
  }

  /** The plugin's active pair is that of the one namespace that has a network function. */
  ghost predicate Serves(w: Wiring, calls: Calls, nf: Option<NfPair>) {
    && (nf == None <==> forall ns :: Active(calls, ns) == None)
    && forall ns :: Active(calls, ns).Some? ==>
         var pair := Active(calls, ns).value;
         M.KnownPair(w, pair.first, pair.second)
         && nf == Some(NfPair(w.deviceStore[pair.first], w.deviceStore[pair.second]))
  }

  lemma {:induction false} LegalRunMore(w: Wiring, s: M.Stored, rs: seq<M.Request>, r: M.Request)
    ensures M.LegalRun(w, s, rs + [r]) <==> M.LegalRun(w, s, rs) && M.Legal(w, M.Run(w, s, rs), r)
    ensures M.LegalRun(w, s, rs + [r]) ==> M.Run(w, s, rs + [r]) == M.Step(w, M.Run(w, s, rs), r)
    decreases |rs|
  {
    if rs == [] {
      assert (rs + [r])[1..] == [];
    } else {
      assert (rs + [r])[1..] == rs[1..] + [r];
      if M.Legal(w, s, rs[0]) { LegalRunMore(w, M.Step(w, s, rs[0]), rs[1..], r); }
    }
  }

  lemma OneAtATimeMore(calls: Calls)
    requires calls != []
    ensures OneAtATime(calls) <==> OneAtATime(calls[..|calls| - 1]) && OneActive(calls)
  {
    var init := calls[..|calls| - 1];
    assert calls[..|calls|] == calls;
    assert forall n :: 0 <= n <= |init| ==> init[..n] == calls[..n];
  }

  /** The calls of any orderly log are a legal run of the plugin exactly when all pairs are known and
      no two namespaces ever have a network function at once. */
  lemma {:induction false} LegalIffOneAtATime(w: Wiring, vfs: set<VfInfo>, calls: Calls)
    requires Orderly(calls)
    ensures var s, rs := M.Stored(vfs, None), RequestsOf(calls);
      && (M.LegalRun(w, s, rs) <==> Known(w, calls) && OneAtATime(calls))
      && (M.LegalRun(w, s, rs) ==> M.Run(w, s, rs).vfs == vfs && Serves(w, calls, M.Run(w, s, rs).nf))
    decreases |calls|
  {
    if calls == [] {
    } else {
      var init, last := calls[..|calls| - 1], calls[|calls| - 1];
      assert calls == init + [last];
      OrderlyAt(calls, |calls| - 1);
      LegalIffOneAtATime(w, vfs, init);
      LegalStep(w, vfs, init, last);
    }
  }

  lemma LegalStep(w: Wiring, vfs: set<VfInfo>, init: Calls, last: Event<string, MacPair>)
    requires Orderly(init) && Follows(init, last)
    requires var s, rs := M.Stored(vfs, None), RequestsOf(init);
      && (M.LegalRun(w, s, rs) <==> Known(w, init) && OneAtATime(init))
      && (M.LegalRun(w, s, rs) ==> M.Run(w, s, rs).vfs == vfs && Serves(w, init, M.Run(w, s, rs).nf))
    ensures var s, rs := M.Stored(vfs, None), RequestsOf(init + [last]);
      && (M.LegalRun(w, s, rs) <==> Known(w, init + [last]) && OneAtATime(init + [last]))
      && (M.LegalRun(w, s, rs) ==> M.Run(w, s, rs).vfs == vfs && Serves(w, init + [last], M.Run(w, s, rs).nf))
  {
    var s, calls := M.Stored(vfs, None), init + [last];
    assert calls[..|calls| - 1] == init;
    assert RequestsOf(calls) == RequestsOf(init) + [RequestOf(last)];
    LegalRunMore(w, s, RequestsOf(init), RequestOf(last));
    OneAtATimeMore(calls);
    KnownMore(w, init, last);
    if M.LegalRun(w, s, RequestsOf(init)) {
      OneAtATimeEnds(init);
      CallIsLegalIff(w, init, last, M.Run(w, s, RequestsOf(init)));
    }
  }

  lemma KnownMore(w: Wiring, init: Calls, last: Event<string, MacPair>)
    ensures Known(w, init + [last]) <==>
      Known(w, init) && (last.Opened? ==> M.KnownPair(w, last.value.first, last.value.second))
  {
    var calls := init + [last];
    assert forall i :: 0 <= i < |init| ==> calls[i] == init[i];
    assert calls[|init|] == last;
  }

  lemma OneAtATimeEnds(calls: Calls)
    requires OneAtATime(calls)
    ensures OneActive(calls)
  {
    assert calls[..|calls|] == calls;
  }

  lemma CallIsLegalIff(w: Wiring, calls: Calls, call: Event<string, MacPair>, s: M.Stored)
    requires Orderly(calls) && Follows(calls, call) && OneActive(calls) && Serves(w, calls, s.nf)
    ensures M.Legal(w, s, RequestOf(call)) <==>
      (call.Opened? ==> M.KnownPair(w, call.value.first, call.value.second)) && OneActive(calls + [call])
    ensures M.Legal(w, s, RequestOf(call)) ==> Serves(w, calls + [call], M.Step(w, s, RequestOf(call)).nf)
  {
    OrderlyAppend(calls, call);
    assert forall ns :: Active(calls + [call], ns) == ActiveAfter(calls, call, ns);
    assert Active(calls + [call], call.key) == if call.Opened? then Some(call.value) else None;
    if call.Opened? && s.nf != None {
      var ns :| Active(calls, ns) != None;
      assert Active(calls + [call], ns).Some?;
    }
  }

  /* ----- in terms of the interfaces of each namespace ----- */

  /** After `n` of the requests at most one namespace has two interfaces or more. */
  ghost predicate OnePaired(requests: seq<Request>, n: nat)
    requires n <= |requests|
  {
    forall a, b :: Depth(0, requests, a, n) >= 2 && Depth(0, requests, b, n) >= 2 ==> a == b
  }

  ghost predicate OnePairedAlways(requests: seq<Request>) {
    forall n: nat :: n <= |requests| ==> OnePaired(requests, n)
  }

  lemma OnePairedMore(init: seq<Request>, r: Request)
    ensures OnePairedAlways(init + [r]) <==> OnePairedAlways(init) && OnePaired(init + [r], |init| + 1)
  {
    forall n: nat | n <= |init| ensures OnePaired(init + [r], n) <==> OnePaired(init, n) {
      forall ns ensures Depth(0, init + [r], ns, n) == Depth(0, init, ns, n) { SameDepth(0, init, r, ns, n); }
    }
  }

  /** The open calls are those of the namespaces with two MACs. */
  ghost predicate InStep(calls: Calls, store: Macs) {
    Orderly(calls) && forall ns :: Active(calls, ns) == PairOf(MacsOf(store, ns))
  }

  lemma {:induction false} StaysInStep(requests: seq<Request>)
    ensures InStep(CallsOf(map[], requests), After(map[], requests))
  {
    if requests == [] {
    } else {
      var init, r := requests[..|requests| - 1], requests[|requests| - 1];
      StaysInStep(init);
      CallFollows(CallsOf(map[], init), After(map[], init), r);
    }
  }

  lemma CallFollows(calls: Calls, store: Macs, r: Request)
    requires InStep(calls, store)
    ensures InStep(calls + CallOf(store, r), NfPairing.Step(store, r))
  {
    var made := CallOf(store, r);
    if made == [] {
      assert calls + made == calls;
    } else {
      assert made == [made[0]] && Follows(calls, made[0]);
      OrderlyAppend(calls, made[0]);
      assert forall ns :: Active(calls + made, ns) == ActiveAfter(calls, made[0], ns);
    }
  }

  /** A network function is active exactly for the namespaces with two interfaces or more, the pair of
      the lowest two. */
  lemma CallsArePaired(requests: seq<Request>, ns: string)
    ensures Paired([], requests, ns, Active(CallsOf(map[], requests), ns))
  {
    StaysInStep(requests);
    StoreIsCounted(map[], requests, ns);
    assert Active(CallsOf(map[], requests), ns) == PairOf(MacsOf(After(map[], requests), ns));
  }

  lemma ActiveMeansPaired(requests: seq<Request>)
    ensures OneActive(CallsOf(map[], requests)) <==> OnePaired(requests, |requests|)
  {
    var calls := CallsOf(map[], requests);
    forall ns ensures Active(calls, ns).Some? <==> Depth(0, requests, ns, |requests|) >= 2 {
      CallsArePaired(requests, ns);
    }
  }

  lemma {:induction false} OneAtATimeIffPaired(requests: seq<Request>)
    ensures OneAtATime(CallsOf(map[], requests)) <==> OnePairedAlways(requests)
  {
    if requests == [] {
    } else {
      var init, r := requests[..|requests| - 1], requests[|requests| - 1];
      OneAtATimeIffPaired(init);
      assert requests == init + [r];
      OnePairedMore(init, r);
      ActiveMeansPaired(requests);
      OneCallMore(CallsOf(map[], init), CallOf(After(map[], init), r));
    }
  }

  lemma OneCallMore(calls: Calls, made: Calls)
    requires |made| <= 1
    ensures OneAtATime(calls + made) <==> OneAtATime(calls) && OneActive(calls + made)
  {
    if made == [] {
      assert calls + made == calls;
      if OneAtATime(calls) { OneAtATimeEnds(calls); }
    } else {
      assert (calls + made)[..|calls + made| - 1] == calls;
      OneAtATimeMore(calls + made);
    }
  }

  /** What the pairing asks the plugin for, from the start, is a legal run exactly when every pair is
      known to the plugin and at no moment two namespaces have two interfaces. */
  lemma PairingIsLegalIff(w: Wiring, vfs: set<VfInfo>, requests: seq<Request>)
    ensures var calls := CallsOf(map[], requests);
      M.LegalRun(w, M.Stored(vfs, None), RequestsOf(calls)) <==> Known(w, calls) && OnePairedAlways(requests)
    ensures Orderly(CallsOf(map[], requests))
  {
    StaysInStep(requests);
    LegalIffOneAtATime(w, vfs, CallsOf(map[], requests));
    OneAtATimeIffPaired(requests);
  }

  /** The plugin's pair is that of the lowest two interfaces of the one namespace that has two, if there
      is one. */
  ghost predicate ServesPair(w: Wiring, requests: seq<Request>, nf: Option<NfPair>) {
    && (nf == None <==> forall ns :: Depth(0, requests, ns, |requests|) < 2)
    && forall ns :: Depth(0, requests, ns, |requests|) >= 2 ==> exists first, second ::
         && Origin([], requests, ns, 0, first) && Origin([], requests, ns, 1, second)
         && M.KnownPair(w, first, second) && nf == Some(NfPair(w.deviceStore[first], w.deviceStore[second]))
  }

  lemma ServesMeansPair(w: Wiring, requests: seq<Request>, nf: Option<NfPair>)
    requires Serves(w, CallsOf(map[], requests), nf)
    ensures ServesPair(w, requests, nf)
  {
    var calls := CallsOf(map[], requests);
    forall ns ensures Paired([], requests, ns, Active(calls, ns)) { CallsArePaired(requests, ns); }
    forall ns | Depth(0, requests, ns, |requests|) >= 2
      ensures exists first, second ::
        && Origin([], requests, ns, 0, first) && Origin([], requests, ns, 1, second)
        && M.KnownPair(w, first, second) && nf == Some(NfPair(w.deviceStore[first], w.deviceStore[second]))
    {
      var pair := Active(calls, ns).value;
      assert Origin([], requests, ns, 0, pair.first) && Origin([], requests, ns, 1, pair.second);
    }
    assert forall ns :: Active(calls, ns) == None <==> Depth(0, requests, ns, |requests|) < 2;
  }

  /** Such a run served by the plugin leaves its bridge in sync, with the right pair. */
  method ServePairing(vsp: Vsp, ghost requests: seq<Request>, calls: Calls) returns (served: nat)
    requires vsp.InSync() && !vsp.isNF
    requires calls == CallsOf(map[], requests) && Known(vsp.w, calls) && OnePairedAlways(requests)
    modifies vsp, vsp.bridge, vsp.bridge.faults
    ensures served <= |calls|
    ensures served == |calls| ==>
      && vsp.InSync() && Vfs(vsp.networkStore) == old(Vfs(vsp.networkStore))
      && ServesPair(vsp.w, requests, Nf(vsp.networkStore, vsp.isNF))
    ensures old(vsp.bridge.faults.script) == [] ==> served == |calls|
  {
    ghost var vfs := Vfs(vsp.networkStore);
    PairingIsLegalIff(vsp.w, vfs, requests);
    LegalIffOneAtATime(vsp.w, vfs, calls);
    served := M.Serve(vsp, RequestsOf(calls));
    if served == |calls| {
      ServesMeansPair(vsp.w, requests, Nf(vsp.networkStore, vsp.isNF));
    }
  }
}
