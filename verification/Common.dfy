/** Shared vocabulary: an optional value, Go's map lookup, and the outcomes of external commands. */
module Common {
  datatype Option<+T> = None | Some(value: T)

  /** Go's `m[k]` on a `map[string]string`: the zero value "" stands for a missing key. */
  function Lookup<K>(m: map<K, string>, k: K): string {
    if k in m then m[k] else ""
  }

  function Find<K, V>(m: map<K, V>, k: K): Option<V> {
    if k in m then Some(m[k]) else None
  }

  /** Maps are equal when they answer every lookup alike. */
  lemma SameMap<K(!new), V>(m: map<K, V>, n: map<K, V>)
    requires forall k :: Find(m, k) == Find(n, k)
    ensures m == n
  {
    assert forall k :: k in m <==> Find(m, k).Some?;
    assert forall k :: k in n <==> Find(n, k).Some?;
    assert forall k | k in m :: m[k] == Find(m, k).value;
    assert forall k | k in n :: n[k] == Find(n, k).value;
  }

  /** Whether the next external command succeeds, and the outcomes of those after it. */
  predicate Works(script: seq<bool>) {
    script == [] || script[0]
  }

  function Rest(script: seq<bool>): seq<bool> {
    if script == [] then [] else script[1..]
  }

  /** The next `n` external commands succeed, and the outcomes of those after them. */
  predicate AllWork(script: seq<bool>, n: nat)
    ensures script == [] ==> AllWork(script, n)
  {
    n == 0 || (Works(script) && AllWork(Rest(script), n - 1))
  }

  function Drop(script: seq<bool>, n: nat): (rest: seq<bool>)
    ensures script == [] ==> rest == []
  {
    if n <= |script| then script[n..] else []
  }

  lemma DropMore(script: seq<bool>, m: nat, n: nat)
    ensures Drop(script, m + n) == Drop(Drop(script, m), n)
  {
  }

  lemma DropOne(script: seq<bool>, n: nat)
    ensures Drop(script, n + 1) == Rest(Drop(script, n))
  {
  }

  lemma {:induction false} FirstAndThen(script: seq<bool>, m: nat, n: nat)
    ensures AllWork(script, m + n) <==> AllWork(script, m) && AllWork(Drop(script, m), n)
    ensures Drop(script, m + n) == Drop(Drop(script, m), n)
  {
    DropMore(script, m, n);
    if m == 0 {
    } else {
      FirstAndThen(Rest(script), m - 1, n);
      assert Drop(Rest(script), m - 1) == Drop(script, m);
    }
  }

  /** After `done` of `all` commands, the next `m`. */
  lemma NextOnes(script: seq<bool>, done: nat, m: nat, all: nat)
    requires done + m <= all
    ensures AllWork(script, done + m) <==> AllWork(script, done) && AllWork(Drop(script, done), m)
    ensures Drop(script, done + m) == Drop(Drop(script, done), m)
    ensures AllWork(script, all) ==> AllWork(script, done + m)
  {
    FirstAndThen(script, done, m);
    FirstAndThen(script, done + m, all - done - m);
  }

  lemma NextOne(script: seq<bool>, done: nat, all: nat)
    requires done < all
    ensures AllWork(script, done + 1) <==> AllWork(script, done) && Works(Drop(script, done))
    ensures Drop(script, done + 1) == Rest(Drop(script, done))
    ensures AllWork(script, all) ==> AllWork(script, done + 1)
  {
    NextOnes(script, done, 1, all);
    OneByOne(Drop(script, done));
  }

  /** The few commands of a straight piece of code, one by one. */
  lemma OneByOne(script: seq<bool>)
    ensures AllWork(script, 1) <==> Works(script)
    ensures AllWork(script, 2) <==> Works(script) && AllWork(Rest(script), 1)
    ensures AllWork(script, 3) <==> Works(script) && AllWork(Rest(script), 2)
    ensures Drop(script, 1) == Rest(script)
    ensures Drop(script, 2) == Rest(Rest(script))
    ensures Drop(script, 3) == Rest(Rest(Rest(script)))
  {
    assert AllWork(script, 1) <==> Works(script) && AllWork(Rest(script), 0);
    assert Drop(script, 1) == Rest(script);
    DropOne(script, 1);
    DropOne(script, 2);
  }

  /** External commands (OVS, netlink, API server) may fail at any call. The outcomes are an
      arbitrary finite script, so a proof about `Next` holds for every pattern of failures;
      once the script is used up the commands succeed. */
  class Faults {
    var script: seq<bool>

    constructor (script: seq<bool>)
      ensures this.script == script
    {
      this.script := script;
    }

    method Next() returns (ok: bool)
      modifies this
      ensures ok == Works(old(script)) && script == Rest(old(script))
    {
      if script == [] {
        ok := true;
      } else {
        ok, script := script[0], script[1..];
      }
    }
  }
}
