/** Logs of sessions: something is opened under a key, at most one at a time, and closed again. */
module Sessions {
  import opened Common

  datatype Event<K, V> = Opened(key: K, value: V) | Closed(key: K, value: V)

  /** What is open under a key after some events. */
  ghost function Active<K, V>(events: seq<Event<K, V>>, key: K): Option<V> {
    if events == [] then None
    else
      var last := events[|events| - 1];
      if last.key != key then Active(events[..|events| - 1], key)
      else if last.Opened? then Some(last.value)
      else None
  }

  /** Only what is not open is opened, and only what is open is closed. */
  ghost predicate Follows<K, V>(before: seq<Event<K, V>>, e: Event<K, V>) {
    Active(before, e.key) == if e.Opened? then None else Some(e.value)
  }

  ghost predicate Orderly<K, V>(events: seq<Event<K, V>>) {
    events == [] || (Orderly(events[..|events| - 1]) && Follows(events[..|events| - 1], events[|events| - 1]))
  }

  ghost function ActiveAfter<K, V>(events: seq<Event<K, V>>, e: Event<K, V>, key: K): Option<V> {
    if key != e.key then Active(events, key) else if e.Opened? then Some(e.value) else None
  }

  lemma OrderlyAppend<K(!new), V>(events: seq<Event<K, V>>, e: Event<K, V>)
    requires Orderly(events) && Follows(events, e)
    ensures Orderly(events + [e])
    ensures forall key :: Active(events + [e], key) == ActiveAfter(events, e, key)
  {
    assert (events + [e])[..|events|] == events;
  }

  lemma {:induction false} OrderlyAt<K, V>(events: seq<Event<K, V>>, i: nat)
    requires Orderly(events) && i < |events|
    ensures Orderly(events[..i]) && Follows(events[..i], events[i])
  {
    var n := |events| - 1;
    if i == n {
    } else {
      OrderlyAt(events[..n], i);
      assert events[..n][..i] == events[..i];
    }
  }

  /** What was opened stays open until it is closed. */
  lemma {:induction false} ActiveUntilClosed<K, V>(events: seq<Event<K, V>>, i: nat, j: nat)
    requires Orderly(events) && i < j <= |events| && events[i].Opened?
    requires forall k :: i < k < j ==> events[k] != Closed(events[i].key, events[i].value)
    ensures Active(events[..j], events[i].key) == Some(events[i].value)
    decreases j
  {
    assert events[..j][..j - 1] == events[..j - 1];
    if i + 1 == j {
    } else {
      ActiveUntilClosed(events, i, j - 1);
      OrderlyAt(events, j - 1);
    }
  }

  /** Between two opens under one key the first is closed. */
  lemma ClosedBetweenOpens<K, V>(events: seq<Event<K, V>>, i: nat, j: nat)
    requires Orderly(events) && i < j < |events|
    requires events[i].Opened? && events[j].Opened? && events[i].key == events[j].key
    ensures exists k :: i < k < j && events[k] == Closed(events[i].key, events[i].value)
  {
    OrderlyAt(events, j);
    if forall k :: i < k < j ==> events[k] != Closed(events[i].key, events[i].value) {
      ActiveUntilClosed(events, i, j);
    }
  }

  /** A row of closes closes what was open before and is not after it. */
  lemma {:induction false} OnlyClosed<K, V(!new)>(events: seq<Event<K, V>>, closes: seq<Event<K, V>>, key: K)
    requires Orderly(events + closes) && forall e :: e in closes ==> e.Closed?
    ensures var before, after := Active(events, key), Active(events + closes, key);
      && (after == before || after == None)
      && forall v :: Closed(key, v) in closes <==> before == Some(v) && after == None
  {
    if closes == [] {
      assert events + closes == events;
    } else {
      var init, e := closes[..|closes| - 1], closes[|closes| - 1];
      assert (events + closes)[..|events + closes| - 1] == events + init;
      assert closes == init + [e] && e in closes;
      OnlyClosed(events, init, key);
    }
  }

  /** A row of opens opens what was not open before and is after it. */
  lemma {:induction false} OnlyOpened<K, V(!new)>(events: seq<Event<K, V>>, opens: seq<Event<K, V>>, key: K)
    requires Orderly(events + opens) && forall e :: e in opens ==> e.Opened?
    ensures var before, after := Active(events, key), Active(events + opens, key);
      && (after == before || before == None)
      && forall v :: Opened(key, v) in opens <==> before == None && after == Some(v)
  {
    if opens == [] {
      assert events + opens == events;
    } else {
      var init, e := opens[..|opens| - 1], opens[|opens| - 1];
      assert (events + opens)[..|events + opens| - 1] == events + init;
      assert opens == init + [e] && e in opens;
      OnlyOpened(events, init, key);
    }
  }

  /** Event `i` opened the value and is the last one of its key. */
  ghost predicate LastOpened<K, V>(events: seq<Event<K, V>>, key: K, value: V, i: nat) {
    && i < |events| && events[i] == Opened(key, value)
    && forall k :: i < k < |events| ==> events[k].key != key
  }

  lemma {:induction false} ActiveWasOpened<K, V>(events: seq<Event<K, V>>, key: K) returns (i: nat)
    requires Active(events, key).Some?
    ensures LastOpened(events, key, Active(events, key).value, i)
  {
    var n := |events| - 1;
    if events[n].key == key {
      i := n;
    } else {
      i := ActiveWasOpened(events[..n], key);
      forall k | i < k < |events| ensures events[k].key != key {
        if k < n { assert events[k] == events[..n][k]; }
      }
    }
  }

  /** Every close follows the open of the very same value, with no event of the key between them. */
  lemma CloseMatchesOpen<K, V>(events: seq<Event<K, V>>, j: nat) returns (i: nat)
    requires Orderly(events) && j < |events| && events[j].Closed?
    ensures i < j && events[i] == Opened(events[j].key, events[j].value)
    ensures forall k :: i < k < j ==> events[k].key != events[j].key
  {
    OrderlyAt(events, j);
    i := ActiveWasOpened(events[..j], events[j].key);
    assert forall k :: 0 <= k < j ==> events[..j][k] == events[k];
  }
}
