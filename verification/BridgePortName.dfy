/** The bridge-port name the host side prints and the two vendor plugins parse. */
module BridgePortName {
  import opened Common
  import opened Decimal

  function PortName(pf: nat, vf: nat): string {
    "host" + PrintNat(pf) + "-" + PrintNat(vf)
  }

  /** Length of the longest run of digits `s` starts with. */
  function DigitRun(s: string): (n: nat)
    ensures n <= |s| && AllDigits(s[..n]) && (n < |s| ==> !IsDigit(s[n]))
  {
    if s == "" || !IsDigit(s[0]) then 0
    else
      var n := 1 + DigitRun(s[1..]);
      assert s[..n] == [s[0]] + s[1..][..n - 1];
      n
  }

  datatype Found = Found(pf: string, vf: string, rest: string)

  /** `host(\d+)-(\d+)` at the start of `s`. Both groups are greedy, and giving digits back cannot
      help since neither the dash nor the end of the match is a digit. */
  function MatchHere(s: string): Option<Found> {
    if !("host" <= s) then None
    else
      var afterHost := s[4..];
      var n := DigitRun(afterHost);
      if n == 0 || n == |afterHost| || afterHost[n] != '-' then None
      else
        var afterDash := afterHost[n + 1..];
        var m := DigitRun(afterDash);
        if m == 0 then None else Some(Found(afterHost[..n], afterDash[..m], afterDash[m..]))
  }

  /** What `host(\d+)-(\d+)` matches, as a text: both groups as long as can be. */
  ghost predicate IsMatch(s: string, f: Found) {
    && s == "host" + f.pf + "-" + f.vf + f.rest
    && f.pf != "" && f.vf != "" && AllDigits(f.pf) && AllDigits(f.vf)
    && (f.rest != "" ==> !IsDigit(f.rest[0]))
  }

  lemma MatchHereIff(s: string, f: Found)
    ensures MatchHere(s) == Some(f) <==> IsMatch(s, f)
  {
    if IsMatch(s, f) {
      assert s == "host" + (f.pf + ("-" + (f.vf + f.rest)));
      FormMatches(f);
    }
    if MatchHere(s) == Some(f) { MatchHasForm(s); }
  }

  lemma FormMatches(f: Found)
    requires IsMatch("host" + f.pf + "-" + f.vf + f.rest, f)
    ensures MatchHere("host" + (f.pf + ("-" + (f.vf + f.rest)))) == Some(f)
  {
    var afterDash := f.vf + f.rest;
    var afterHost := f.pf + ("-" + afterDash);
    assert ("host" + afterHost)[4..] == afterHost;
    DigitRunOf(f.pf, "-" + afterDash);
    DigitRunOf(f.vf, f.rest);
    assert afterHost[..|f.pf|] == f.pf && afterHost[|f.pf| + 1..] == afterDash;
    assert afterDash[..|f.vf|] == f.vf && afterDash[|f.vf|..] == f.rest;
  }

  lemma MatchHasForm(s: string)
    requires MatchHere(s).Some?
    ensures IsMatch(s, MatchHere(s).value)
  {
    var f := MatchHere(s).value;
    CutAt(s[4..], |f.pf|);
    Joined("host", f.pf, "-", f.vf, f.rest, s[4..], s[4..][|f.pf| + 1..]);
    assert s == "host" + s[4..];
  }

  lemma CutAt(s: string, n: nat)
    requires n < |s|
    ensures s == s[..n] + ([s[n]] + s[n + 1..])
  {
  }

  lemma Joined(a: string, b: string, c: string, d: string, e: string, s: string, t: string)
    requires s == b + (c + t) && t == d + e
    ensures a + s == a + b + c + d + e
  {
  }

  /** The unanchored expression: the leftmost match. */
  function MatchFirst(s: string): Option<Found> {
    if MatchHere(s).Some? then MatchHere(s)
    else if s == "" then None
    else MatchFirst(s[1..])
  }

  function MatchAt(s: string, i: nat): Option<Found>
    requires i <= |s|
  {
    MatchHere(s[i..])
  }

  /** A match starts at `j` and none between `i` and there. */
  ghost predicate Leftmost(s: string, i: nat, j: nat) {
    i <= j <= |s| && MatchAt(s, j).Some? && forall k: nat :: i <= k < j ==> MatchAt(s, k) == None
  }

  /** The match found is the leftmost one. */
  lemma {:induction false} MatchFirstIsLeftmost(s: string, i: nat)
    requires i <= |s|
    ensures MatchFirst(s[i..]) == None ==> forall j: nat :: i <= j <= |s| ==> MatchAt(s, j) == None
    ensures MatchFirst(s[i..]).Some? ==>
      exists j: nat :: Leftmost(s, i, j) && MatchAt(s, j) == MatchFirst(s[i..])
    decreases |s| - i
  {
    if MatchAt(s, i).Some? {
      assert Leftmost(s, i, i);
    } else if i == |s| {
    } else {
      assert s[i..][1..] == s[i + 1..];
      MatchFirstIsLeftmost(s, i + 1);
      if MatchFirst(s[i..]).Some? {
        var j: nat :| Leftmost(s, i + 1, j) && MatchAt(s, j) == MatchFirst(s[i..]);
        assert Leftmost(s, i, j);
      }
    }
  }

  /** The anchored expression. */
  function MatchWhole(s: string): Option<Found> {
    var f := MatchHere(s);
    if f.Some? && f.value.rest == "" then f else None
  }

  datatype PortIds = PortIds(pf: int, vf: int)

  function Ids(f: Option<Found>): Option<PortIds> {
    if f.None? then None
    else
      var pf, vf := Atoi(f.value.pf), Atoi(f.value.vf);
      if pf.None? || vf.None? then None else Some(PortIds(pf.value, vf.value))
  }

  /** NetSec: the id of the VF key on the one supported PF. */
  function NetSecVf(name: string): Option<int> {
    var ids := Ids(MatchWhole(name));
    if ids.None? || ids.value.pf != 0 then None else Some(ids.value.vf)
  }

  function Wrap64(n: int): int {
    (n - MIN_INT) % 0x1_0000_0000_0000_0000 + MIN_INT
  }

  function Position(vf: int, pfCount: nat, pfId: nat): int {
    Wrap64(pfCount * Wrap64(vf + 1) + pfId)
  }

  /** Marvell: position in the list of `listed` PCI functions, past the PF's own; only an upper bound
      is checked. The code calls this with one PF, numbered 0, whatever PF the name holds. */
  function MarvellIndex(name: string, pfCount: nat, pfId: nat, listed: nat): Option<int> {
    var ids := Ids(MatchFirst(name));
    if ids.None? then None
    else
      var index := Position(ids.value.vf, pfCount, pfId);
      if index > listed - 1 then None else Some(index)
  }

  lemma {:induction false} DigitRunOf(digits: string, rest: string)
    requires AllDigits(digits) && (rest != "" ==> !IsDigit(rest[0]))
    ensures DigitRun(digits + rest) == |digits|
  {
    if digits == "" {
      assert digits + rest == rest;
    } else {
      assert (digits + rest)[1..] == digits[1..] + rest;
      DigitRunOf(digits[1..], rest);
    }
  }

  lemma MatchesPrinted(pf: string, vf: string)
    requires pf != "" && vf != "" && AllDigits(pf) && AllDigits(vf)
    ensures var s, f := "host" + pf + "-" + vf, Some(Found(pf, vf, ""));
      MatchHere(s) == f && MatchWhole(s) == f && MatchFirst(s) == f
  {
    var s := "host" + pf + "-" + vf;
    assert s == s + "";
    MatchHereIff(s, Found(pf, vf, ""));
  }

  /** Both expressions read back exactly what was printed, if it is a 64-bit number. */
  lemma NameRoundTrip(pf: nat, vf: nat)
    ensures var ids := if pf <= MAX_INT && vf <= MAX_INT then Some(PortIds(pf, vf)) else None;
      Ids(MatchWhole(PortName(pf, vf))) == ids && Ids(MatchFirst(PortName(pf, vf))) == ids
  {
    MatchesPrinted(PrintNat(pf), PrintNat(vf));
    AtoiOfDigits(pf);
    AtoiOfDigits(vf);
  }

  /** NetSec serves PF 0 only and maps its VFs one to one. */
  lemma NetSecMapsVf(pf: nat, vf: nat)
    ensures NetSecVf(PortName(pf, vf)) == if pf == 0 && vf <= MAX_INT then Some(vf) else None
  {
    NameRoundTrip(pf, vf);
  }

  const NUM_PFS: nat := 1
  const PF_ID: nat := 0

  /** The plugin's index: each VF has the position after its own number, accepted exactly when it is
      listed, and the PF in the name plays no part. The last 64-bit number wraps to a negative position
      that passes the check. */
  lemma MarvellMapsVf(pf: nat, vf: nat, listed: nat)
    ensures MarvellIndex(PortName(pf, vf), NUM_PFS, PF_ID, listed) ==
      if pf > MAX_INT || vf > MAX_INT then None
      else if vf == MAX_INT then Some(MIN_INT)
      else if vf + 1 < listed then Some(vf + 1)
      else None
  {
    NameRoundTrip(pf, vf);
    if vf <= MAX_INT { PositionOf(vf); }
  }

  lemma PositionOf(vf: nat)
    requires vf <= MAX_INT
    ensures Position(vf, NUM_PFS, PF_ID) == if vf == MAX_INT then MIN_INT else vf + 1
  {
    if vf == MAX_INT {
      assert Wrap64(MAX_INT + 1) == MIN_INT;
      InRange(MIN_INT);
    } else {
      InRange(vf + 1);
    }
  }

  /** The position is not one in the list exactly for that number. */
  lemma MarvellLeavesListIff(pf: nat, vf: nat, listed: nat)
    requires pf <= MAX_INT && vf <= MAX_INT
    ensures var index := MarvellIndex(PortName(pf, vf), NUM_PFS, PF_ID, listed);
      index.Some? && !(0 <= index.value < listed) <==> vf == MAX_INT
  {
    MarvellMapsVf(pf, vf, listed);
  }

  /** For any number of PFs, as long as the position is a 64-bit number. */
  lemma MarvellMapsVfOfMany(pf: nat, vf: nat, pfCount: nat, pfId: nat, listed: nat)
    requires pf <= MAX_INT && 0 < pfCount && pfCount * (vf + 1) + pfId <= MAX_INT
    ensures var index := pfCount * (vf + 1) + pfId;
      MarvellIndex(PortName(pf, vf), pfCount, pfId, listed) == if index < listed then Some(index) else None
  {
    AtLeastOnce(pfCount, vf + 1);
    NameRoundTrip(pf, vf);
    InRange(vf + 1);
    InRange(pfCount * (vf + 1) + pfId);
  }

  lemma InRange(n: int)
    requires MIN_INT <= n <= MAX_INT
    ensures Wrap64(n) == n
  {
  }

  lemma {:induction false} AtLeastOnce(k: nat, n: nat)
    requires 0 < k
    ensures n <= k * n
  {
    if k <= 1 {
    } else {
      AtLeastOnce(k - 1, n);
      assert k * n == (k - 1) * n + n;
    }
  }

  /** Two VFs never share a position. */
  lemma MarvellIndexIsInjective(pf: nat, vf: nat, pf': nat, vf': nat, listed: nat)
    ensures var i := MarvellIndex(PortName(pf, vf), NUM_PFS, PF_ID, listed);
      i.Some? && i == MarvellIndex(PortName(pf', vf'), NUM_PFS, PF_ID, listed) ==> vf == vf'
  {
    MarvellMapsVf(pf, vf, listed);
    MarvellMapsVf(pf', vf', listed);
  }

  lemma IndexOfManyIsInjective(pf: nat, vf: nat, pf': nat, vf': nat, pfCount: nat, pfId: nat, listed: nat)
    requires pf <= MAX_INT && pf' <= MAX_INT && 0 < pfCount
    requires pfCount * (vf + 1) + pfId <= MAX_INT && pfCount * (vf' + 1) + pfId <= MAX_INT
    ensures var i := MarvellIndex(PortName(pf, vf), pfCount, pfId, listed);
      i.Some? && i == MarvellIndex(PortName(pf', vf'), pfCount, pfId, listed) ==> vf == vf'
  {
    MarvellMapsVfOfMany(pf, vf, pfCount, pfId, listed);
    MarvellMapsVfOfMany(pf', vf', pfCount, pfId, listed);
    SameProduct(pfCount, vf, vf');
  }

  lemma {:induction false} ProductGrows(k: nat, m: nat, n: nat)
    requires 0 < k && m < n
    ensures k * m < k * n
    decreases n
  {
    assert k * n == k * (n - 1) + k;
    if m + 1 == n {
    } else {
      ProductGrows(k, m, n - 1);
    }
  }

  lemma SameProduct(k: nat, m: nat, n: nat)
    requires 0 < k
    ensures k * (m + 1) == k * (n + 1) ==> m == n
  {
    if m < n { ProductGrows(k, m + 1, n + 1); }
    if n < m { ProductGrows(k, n + 1, m + 1); }
  }
}
