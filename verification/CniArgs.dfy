/** The CNI_ARGS variable: printed for delegated IPAM plugins, parsed from requests. */
module CniArgs {
  import opened Common
  import opened Strings

  /** White space as `strings.TrimSpace` knows it, within Latin-1. */
  predicate IsSpace(c: char) {
    c in {' ', '\t', '\n', '\r', '\U{0B}', '\U{0C}', '\U{85}', '\U{A0}'}
  }

  function TrimLeft(s: string): string {
    if s != "" && IsSpace(s[0]) then TrimLeft(s[1..]) else s
  }

  function TrimRight(s: string): string {
    if s != "" && IsSpace(s[|s| - 1]) then TrimRight(s[..|s| - 1]) else s
  }

  function TrimSpace(s: string): string {
    TrimRight(TrimLeft(s))
  }

  predicate Trimmed(s: string) {
    s == "" || (!IsSpace(s[0]) && !IsSpace(s[|s| - 1]))
  }

  ghost predicate AllSpace(s: string) {
    forall i :: 0 <= i < |s| ==> IsSpace(s[i])
  }

  /** Trimming takes white space from both ends, and all of it. */
  lemma TrimSpaceTrims(s: string)
    ensures exists i, j ::
      0 <= i <= j <= |s| && AllSpace(s[..i]) && AllSpace(s[j..]) && TrimSpace(s) == s[i..j] && Trimmed(s[i..j])
  {
    LeftTrimmed(s);
    var i := |s| - |TrimLeft(s)|;
    RightTrimmed(s[i..]);
    var j := i + |TrimSpace(s)|;
    assert s[i..][..j - i] == s[i..j] && s[i..][j - i..] == s[j..];
    assert AllSpace(s[..i]) && AllSpace(s[j..]);
  }

  lemma TrimmedIsKept(s: string)
    requires Trimmed(s)
    ensures TrimSpace(s) == s
  {
  }

  lemma {:induction false} LeftTrimmed(s: string)
    ensures var n := |s| - |TrimLeft(s)|;
      0 <= n && TrimLeft(s) == s[n..] && AllSpace(s[..n])
    ensures TrimLeft(s) != "" ==> !IsSpace(TrimLeft(s)[0])
  {
    if s == "" || !IsSpace(s[0]) {
    } else {
      LeftTrimmed(s[1..]);
      var n := |s| - |TrimLeft(s)|;
      assert s[1..][n - 1..] == s[n..] && s[..n] == [s[0]] + s[1..][..n - 1];
    }
  }

  lemma {:induction false} RightTrimmed(s: string)
    ensures var n := |TrimRight(s)|;
      n <= |s| && TrimRight(s) == s[..n] && AllSpace(s[n..])
    ensures TrimRight(s) != "" ==> !IsSpace(TrimRight(s)[|TrimRight(s)| - 1])
  {
    if s == "" || !IsSpace(s[|s| - 1]) {
    } else {
      var init, n := s[..|s| - 1], |TrimRight(s)|;
      RightTrimmed(init);
      assert init[..n] == s[..n] && s[n..] == init[n..] + [s[|s| - 1]];
    }
  }

  /** One segment `key=value`. */
  predicate IsPair(arg: string) {
    multiset(arg)['='] == 1
  }

  datatype Pair = Pair(key: string, value: string)

  function PairOf(arg: string): Pair
    requires |Split(arg, '=')| == 2
  {
    Pair(TrimSpace(Split(arg, '=')[0]), TrimSpace(Split(arg, '=')[1]))
  }

  type Args = map<string, string>

  /** The last pair with a key decides its value, and every key is decided by a pair. */
  ghost predicate LastWins(pairs: seq<Pair>, args: Args) {
    && (forall i :: 0 <= i < |pairs| ==> pairs[i].key in args)
    && forall key :: key in args ==> exists i :: 0 <= i < |pairs| && Decides(pairs, i, Pair(key, args[key]))
  }

  ghost predicate Decides(pairs: seq<Pair>, i: nat, p: Pair)
    requires i < |pairs|
  {
    pairs[i] == p && forall j :: i < j < |pairs| ==> pairs[j].key != p.key
  }

  /** That leaves no choice. */
  lemma LastWinsIsUnique(pairs: seq<Pair>, args: Args, args': Args)
    requires LastWins(pairs, args) && LastWins(pairs, args')
    ensures args == args'
  {
    forall key ensures Find(args, key) == Find(args', key) {
      if key in args {
        var i :| 0 <= i < |pairs| && Decides(pairs, i, Pair(key, args[key]));
        var j :| 0 <= j < |pairs| && Decides(pairs, j, Pair(key, args'[key]));
        assert i == j;
      }
    }
    SameMap(args, args');
  }

  lemma LastWinsStep(pairs: seq<Pair>, p: Pair, args: Args)
    requires LastWins(pairs, args)
    ensures LastWins(pairs + [p], args[p.key := p.value])
  {
    var longer, args' := pairs + [p], args[p.key := p.value];
    forall key | key in args' ensures exists i :: 0 <= i < |longer| && Decides(longer, i, Pair(key, args'[key])) {
      if key == p.key {
        assert Decides(longer, |pairs|, Pair(key, args'[key]));
      } else {
        var i :| 0 <= i < |pairs| && Decides(pairs, i, Pair(key, args[key]));
        assert Decides(longer, i, Pair(key, args'[key]));
      }
    }
  }

  ghost predicate AllPairs(segments: seq<string>) {
    forall i :: 0 <= i < |segments| ==> IsPair(segments[i])
  }

  ghost predicate PairsOf(segments: seq<string>, pairs: seq<Pair>) {
    && |pairs| == |segments|
    && forall i :: 0 <= i < |segments| ==> Parses(segments[i], pairs[i])
  }

  ghost predicate Parses(arg: string, p: Pair) {
    |Split(arg, '=')| == 2 && p == PairOf(arg)
  }

  method ParseArg(arg: string) returns (p: Option<Pair>)
    ensures p.Some? <==> IsPair(arg)
    ensures p.Some? ==> Parses(arg, p.value)
  {
    PartsAreSeparated(arg, '=');
    var parts := Split(arg, '=');
    if |parts| != 2 { return None; }
    return Some(Pair(TrimSpace(parts[0]), TrimSpace(parts[1])));
  }

  /** Succeeds iff each ';'-segment holds exactly one '='. */
  method GatherPairs(cniArgs: string) returns (args: Option<Args>, ghost pairs: seq<Pair>)
    ensures args.Some? <==> AllPairs(Split(cniArgs, ';'))
    ensures args.Some? ==> PairsOf(Split(cniArgs, ';'), pairs) && LastWins(pairs, args.value)
  {
    var segments := Split(cniArgs, ';');
    var mapArgs: Args := map[];
    pairs := [];
    for i := 0 to |segments|
      invariant |pairs| == i && LastWins(pairs, mapArgs)
      invariant forall j :: 0 <= j < i ==> IsPair(segments[j]) && Parses(segments[j], pairs[j])
    {
      var p := ParseArg(segments[i]);
      if p == None {
        assert !IsPair(segments[i]);
        return None, [];
      }
      LastWinsStep(pairs, p.value, mapArgs);
      mapArgs := mapArgs[p.value.key := p.value.value];
      pairs := pairs + [p.value];
    }
    return Some(mapArgs), pairs;
  }

  method GatherCNIArgs(env: map<string, string>) returns (args: Option<Args>)
    ensures args.Some? <==> "CNI_ARGS" in env && AllPairs(Split(env["CNI_ARGS"], ';'))
    ensures args.Some? ==> exists pairs :: PairsOf(Split(env["CNI_ARGS"], ';'), pairs) && LastWins(pairs, args.value)
  {
    if "CNI_ARGS" !in env { return None; }
    ghost var pairs;
    args, pairs := GatherPairs(env["CNI_ARGS"]);
  }

  /* ----- round trip ----- */

  const IGNORE: string := "IgnoreUnknown"
  const NAMESPACE: string := "K8S_POD_NAMESPACE"
  const NAME: string := "K8S_POD_NAME"
  const UID: string := "K8S_POD_UID"

  function Segment(p: Pair): string {
    p.key + "=" + p.value
  }

  /** What is exported for a pod. */
  function PrintArgs(namespace: string, name: string, uid: string): string {
    Join(SegmentsOf(PodPairs(namespace, name, uid)), ";")
  }

  function PodPairs(namespace: string, name: string, uid: string): seq<Pair> {
    [Pair(IGNORE, "true"), Pair(NAMESPACE, namespace), Pair(NAME, name), Pair(UID, uid)]
  }

  function SegmentsOf(pairs: seq<Pair>): (segments: seq<string>)
    ensures |segments| == |pairs| && forall i :: 0 <= i < |pairs| ==> segments[i] == Segment(pairs[i])
  {
    if pairs == [] then [] else [Segment(pairs[0])] + SegmentsOf(pairs[1..])
  }

  lemma PrintedForm(namespace: string, name: string, uid: string)
    ensures PrintArgs(namespace, name, uid) ==
      "IgnoreUnknown=true;K8S_POD_NAMESPACE=" + namespace + ";K8S_POD_NAME=" + name + ";K8S_POD_UID=" + uid
  {
    JoinOfFour(SegmentsOf(PodPairs(namespace, name, uid)), ";");
    FirstKeyTexts();
    LastKeyTexts();
    Regroup(IGNORE + "=" + "true", ";", NAMESPACE + "=", namespace, NAME + "=", name, UID + "=", uid);
  }

  lemma FirstKeyTexts()
    ensures "IgnoreUnknown=true;K8S_POD_NAMESPACE=" == (IGNORE + "=" + "true") + ";" + (NAMESPACE + "=")
  {
  }

  lemma LastKeyTexts()
    ensures ";K8S_POD_NAME=" == ";" + (NAME + "=")
    ensures ";K8S_POD_UID=" == ";" + (UID + "=")
  {
  }

  lemma JoinOfFour(parts: seq<string>, sep: string)
    requires |parts| == 4
    ensures Join(parts, sep) == parts[0] + sep + (parts[1] + sep + (parts[2] + sep + parts[3]))
  {
    assert Join(parts[3..], sep) == parts[3];
    assert parts[2..][1..] == parts[3..] && parts[1..][1..] == parts[2..];
    assert Join(parts[2..], sep) == parts[2] + sep + Join(parts[3..], sep);
    assert Join(parts[1..], sep) == parts[1] + sep + Join(parts[2..], sep);
  }

  lemma Regroup(a: string, sep: string, p: string, x: string, q: string, y: string, r: string, z: string)
    ensures a + sep + ((p + x) + sep + ((q + y) + sep + (r + z))) == (a + sep + p) + x + (sep + q) + y + (sep + r) + z
  {
  }

  predicate Plain(s: string) {
    ';' !in s && '=' !in s
  }

  function TrimmedPair(p: Pair): Pair {
    Pair(TrimSpace(p.key), TrimSpace(p.value))
  }

  lemma SegmentIsPair(p: Pair)
    requires Plain(p.key) && Plain(p.value)
    ensures ';' !in Segment(p) && Parses(Segment(p), TrimmedPair(p))
  {
    SplitAtFirst(p.key, p.value, '=');
    SplitOfWhole(p.value, '=');
    assert Segment(p) == p.key + ['='] + p.value;
  }

  ghost predicate DistinctPlain(pairs: seq<Pair>) {
    DistinctKeys(pairs) && forall i :: 0 <= i < |pairs| ==> Plain(pairs[i].key) && Plain(pairs[i].value)
  }

  ghost predicate DistinctKeys(pairs: seq<Pair>) {
    forall i, j :: 0 <= i < j < |pairs| ==> pairs[i].key != pairs[j].key
  }

  ghost predicate AreTrimmed(pairs: seq<Pair>, parsed: seq<Pair>) {
    |parsed| == |pairs| && forall i :: 0 <= i < |pairs| ==> parsed[i] == TrimmedPair(pairs[i])
  }

  /** Printed pairs are split and parsed back. */
  lemma PrintedPairs(pairs: seq<Pair>, parsed: seq<Pair>)
    requires pairs != [] && DistinctPlain(pairs) && AreTrimmed(pairs, parsed)
    ensures PairsOf(Split(Join(SegmentsOf(pairs), ";"), ';'), parsed)
    ensures AllPairs(Split(Join(SegmentsOf(pairs), ";"), ';'))
  {
    var segments := SegmentsOf(pairs);
    forall i | 0 <= i < |pairs|
      ensures ';' !in segments[i] && Parses(segments[i], parsed[i]) && IsPair(segments[i])
    {
      SegmentIsPair(pairs[i]);
      PartsAreSeparated(segments[i], '=');
    }
    SplitOfJoined(segments, ';');
  }

  lemma PairsAreDetermined(segments: seq<string>, pairs: seq<Pair>, pairs': seq<Pair>)
    requires PairsOf(segments, pairs) && PairsOf(segments, pairs')
    ensures pairs == pairs'
  {
  }

  ghost predicate Holds(pairs: seq<Pair>, args: Args) {
    && (forall i :: 0 <= i < |pairs| ==> pairs[i].key in args && args[pairs[i].key] == pairs[i].value)
    && forall key :: key in args ==> exists i :: 0 <= i < |pairs| && pairs[i].key == key
  }

  lemma DistinctKeysHold(pairs: seq<Pair>, args: Args)
    requires LastWins(pairs, args) && DistinctKeys(pairs)
    ensures Holds(pairs, args)
  {
    forall i | 0 <= i < |pairs| ensures pairs[i].key in args && args[pairs[i].key] == pairs[i].value {
      var j :| 0 <= j < |pairs| && Decides(pairs, j, Pair(pairs[i].key, args[pairs[i].key]));
      assert j == i;
    }
    forall key | key in args ensures exists i :: 0 <= i < |pairs| && pairs[i].key == key {
      var i :| 0 <= i < |pairs| && Decides(pairs, i, Pair(key, args[key]));
    }
  }

  lemma KeysArePlain()
    ensures Plain(IGNORE) && Plain("true") && Plain(NAMESPACE) && Plain(NAME) && Plain(UID)
    ensures IGNORE !in {NAMESPACE, NAME, UID} && NAMESPACE !in {NAME, UID} && NAME != UID
  {
    assert |IGNORE| == 13 && |NAMESPACE| == 17 && |NAME| == 12 && |UID| == 11;
  }

  lemma KeysAreTrimmed()
    ensures TrimSpace(IGNORE) == IGNORE && TrimSpace("true") == "true" && TrimSpace(NAMESPACE) == NAMESPACE
    ensures TrimSpace(NAME) == NAME && TrimSpace(UID) == UID
  {
    TrimmedIsKept(IGNORE);
    TrimmedIsKept("true");
    TrimmedIsKept(NAMESPACE);
    TrimmedIsKept(NAME);
    TrimmedIsKept(UID);
  }

  lemma PodPairsAreDistinct(namespace: string, name: string, uid: string)
    requires Plain(namespace) && Plain(name) && Plain(uid)
    ensures DistinctPlain(PodPairs(namespace, name, uid))
    ensures AreTrimmed(
      PodPairs(namespace, name, uid), PodPairs(TrimSpace(namespace), TrimSpace(name), TrimSpace(uid)))
  {
    KeysArePlain();
    KeysAreTrimmed();
  }

  /** What is printed for a pod is read back: its three values without white space around them and the
      flag, nothing else. */
  method RoundTrip(namespace: string, name: string, uid: string) returns (args: Option<Args>)
    requires Plain(namespace) && Plain(name) && Plain(uid)
    ensures args == Some(map[
      IGNORE := "true", NAMESPACE := TrimSpace(namespace), NAME := TrimSpace(name), UID := TrimSpace(uid)])
  {
    PodPairsAreDistinct(namespace, name, uid);
    ghost var parsed := PodPairs(TrimSpace(namespace), TrimSpace(name), TrimSpace(uid));
    PrintedPairs(PodPairs(namespace, name, uid), parsed);
    KeysStayDistinct(PodPairs(namespace, name, uid), parsed);
    var cniArgs := PrintArgs(namespace, name, uid);
    var env := map["CNI_ARGS" := cniArgs];
    args := GatherCNIArgs(env);
    ReadBack(Split(cniArgs, ';'), parsed, args.value);
  }

  lemma KeysStayDistinct(pairs: seq<Pair>, parsed: seq<Pair>)
    requires |parsed| == |pairs| && DistinctKeys(pairs)
    requires forall i :: 0 <= i < |pairs| ==> parsed[i].key == pairs[i].key
    ensures DistinctKeys(parsed)
  {
    forall i, j | 0 <= i < j < |parsed| ensures parsed[i].key != parsed[j].key {
      assert pairs[i].key != pairs[j].key;
    }
  }

  lemma ReadBack(segments: seq<string>, parsed: seq<Pair>, args: Args)
    requires |parsed| == 4 && PairsOf(segments, parsed) && DistinctKeys(parsed)
    requires exists pairs :: PairsOf(segments, pairs) && LastWins(pairs, args)
    ensures args == map[
      parsed[0].key := parsed[0].value, parsed[1].key := parsed[1].value, parsed[2].key := parsed[2].value,
      parsed[3].key := parsed[3].value]
  {
    var pairs :| PairsOf(segments, pairs) && LastWins(pairs, args);
    PairsAreDetermined(segments, parsed, pairs);
    FourPairs(parsed, args);
  }

  lemma FourPairs(pairs: seq<Pair>, args: Args)
    requires |pairs| == 4 && LastWins(pairs, args) && DistinctKeys(pairs)
    ensures args == map[
      pairs[0].key := pairs[0].value, pairs[1].key := pairs[1].value, pairs[2].key := pairs[2].value,
      pairs[3].key := pairs[3].value]
  {
    DistinctKeysHold(pairs, args);
  }
}
