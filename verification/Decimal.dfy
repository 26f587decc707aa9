/** Go's `%d` and `strconv.Atoi` for 64-bit ints. */
module Decimal {
  import opened Common

  const MIN_INT: int := -0x8000_0000_0000_0000
  const MAX_INT: int := 0x7FFF_FFFF_FFFF_FFFF

  predicate IsDigit(c: char) { '0' <= c <= '9' }

  predicate AllDigits(s: string) {
    forall i :: 0 <= i < |s| ==> IsDigit(s[i])
  }

  function Digit(d: nat): (c: char)
    requires d < 10
    ensures IsDigit(c) && c as int - '0' as int == d
  {
    '0' + d as char
  }

  function PrintNat(n: nat): (s: string)
    ensures s != "" && AllDigits(s)
  {
    if n < 10 then [Digit(n)] else PrintNat(n / 10) + [Digit(n % 10)]
  }

  function PrintInt(i: int): string {
    if i < 0 then "-" + PrintNat(-i) else PrintNat(i)
  }

  function DigitsValue(s: string): nat
    requires AllDigits(s)
  {
    if s == "" then 0
    else 10 * DigitsValue(s[..|s| - 1]) + (s[|s| - 1] as int - '0' as int)
  }

  function Atoi(s: string): Option<int> {
    var signed := s != "" && s[0] in {'-', '+'};
    var digits := if signed then s[1..] else s;
    if digits == "" || !AllDigits(digits) then None
    else
      var magnitude: int := DigitsValue(digits);
      var n := if signed && s[0] == '-' then -magnitude else magnitude;
      if MIN_INT <= n <= MAX_INT then Some(n) else None
  }

  lemma {:induction false} PrintedValue(n: nat)
    ensures DigitsValue(PrintNat(n)) == n
  {
    if n < 10 {
    } else {
      PrintedValue(n / 10);
      var s := PrintNat(n);
      assert s[..|s| - 1] == PrintNat(n / 10);
    }
  }

  /** Printing inverts reading, for digits without a leading zero. */
  lemma {:induction false} PrintOfDigits(s: string)
    requires s != "" && AllDigits(s) && (s[0] == '0' ==> s == "0")
    ensures PrintNat(DigitsValue(s)) == s
  {
    var init, last := s[..|s| - 1], s[|s| - 1];
    if init == "" {
      assert DigitsValue(init) == 0;
    } else {
      PrintOfDigits(init);
      assert s[0] == init[0] != '0';
      assert s == init + [last];
    }
  }

  lemma ByHand()
    ensures PrintInt(-12) == "-12" && Atoi("12") == Atoi("+12") == Some(12)
    ensures Atoi("") == Atoi("-") == Atoi("4 ") == None
  {
    assert "12"[..1] == "1" && "1"[..0] == "";
    assert DigitsValue("1") == 1 && DigitsValue("12") == 12;
    PrintOfDigits("12");
    assert "+12"[1..] == "12" && "-"[1..] == "" && !IsDigit("4 "[1]);
  }

  function PowerOfTen(k: nat): nat {
    if k == 0 then 1 else 10 * PowerOfTen(k - 1)
  }

  lemma {:induction false} PrintedLength(n: nat, k: nat)
    requires 0 < k && n < PowerOfTen(k)
    ensures |PrintNat(n)| <= k
  {
    if n < 10 {
    } else {
      assert k > 1;
      PrintedLength(n / 10, k - 1);
    }
  }

  lemma AtoiOfDigits(n: nat)
    ensures Atoi(PrintNat(n)) == if n <= MAX_INT then Some(n) else None
  {
    var s := PrintNat(n);
    PrintedValue(n);
    assert IsDigit(s[0]) && s[0] !in {'-', '+'};
  }

  lemma AtoiOfNegative(i: int)
    requires i < 0
    ensures Atoi("-" + PrintNat(-i)) == if MIN_INT <= i then Some(i) else None
  {
    var s := "-" + PrintNat(-i);
    PrintedValue(-i);
    assert s[0] == '-' && s[1..] == PrintNat(-i);
  }

  /** What is printed is parsed back iff it is a 64-bit number. */
  lemma AtoiOfPrinted(i: int)
    ensures Atoi(PrintInt(i)) == if -0x8000_0000_0000_0000 <= i <= 0x7FFF_FFFF_FFFF_FFFF then Some(i) else None
  {
    if i < 0 { AtoiOfNegative(i); } else { AtoiOfDigits(i); }
  }
}
