/** Decimal numerals without leading zeros. */
module Decimals {
  predicate IsDigit(c: char) {
    '0' <= c <= '9'
  }

  predicate AllDigits(s: string) {
    forall i :: 0 <= i < |s| ==> IsDigit(s[i])
  }

  /** `0|[1-9][0-9]*` */
  predicate Canonical(s: string) {
    s != "" && AllDigits(s) && (s[0] == '0' ==> |s| == 1)
  }

  function DigitValue(c: char): (d: nat)
    requires IsDigit(c)
    ensures d < 10
  {
    (c - '0') as nat
  }

  function Digit(d: nat): (c: char)
    requires d < 10
    ensures IsDigit(c) && DigitValue(c) == d
  {
    '0' + d as char
  }

  /** `str(n)` */
  function Print(n: nat): (s: string)
    ensures s != "" && AllDigits(s)
  {
    if n < 10 then [Digit(n)] else Print(n / 10) + [Digit(n % 10)]
  }

  /** `int(s)` for a string of digits. */
  function Value(s: string): nat
    requires AllDigits(s)
  {
    if s == "" then 0 else Value(s[..|s| - 1]) * 10 + DigitValue(s[|s| - 1])
  }

  lemma {:induction false} ValuePrint(n: nat)
    ensures Value(Print(n)) == n && Canonical(Print(n)) && (n > 0 ==> Print(n)[0] != '0')
  {
    var s := Print(n);
    if n < 10 {
      assert s[..0] == "";
      assert Value(s) == DigitValue(s[0]);
    } else {
      ValuePrint(n / 10);
      assert s[..|s| - 1] == Print(n / 10);
    }
  }

  lemma {:induction false} PrintValue(s: string)
    requires Canonical(s)
    ensures Print(Value(s)) == s && (s[0] != '0' ==> Value(s) > 0)
  {
    if |s| == 1 {
      assert s[..0] == "";
      assert Value(s) == DigitValue(s[0]);
      assert Digit(DigitValue(s[0])) == s[0];
    } else {
      var t := s[..|s| - 1];
      PrintValue(t);
      assert Value(s) / 10 == Value(t) && Value(s) % 10 == DigitValue(s[|s| - 1]);
      assert Digit(DigitValue(s[|s| - 1])) == s[|s| - 1];
      assert s == t + [s[|s| - 1]];
    }
  }
}
