/** Base-10 printing and parsing of integers, as BigInt does it. */
module Decimal {
  import opened Wrappers

  predicate IsDigit(c: char) {
    '0' <= c <= '9'
  }

  ghost predicate AllDigits(s: string) {
    forall i :: 0 <= i < |s| ==> IsDigit(s[i])
  }

  function Digit(n: nat): (c: char)
    requires n < 10
    ensures IsDigit(c) && DigitValue(c) == n
  {
    ('0' as int + n) as char
  }

  function DigitValue(c: char): (n: nat)
    requires IsDigit(c)
    ensures n < 10
  {
    c as int - '0' as int
  }

  function PrintNat(n: nat): (s: string)
    ensures s != "" && AllDigits(s)
  {
    if n < 10 then [Digit(n)] else PrintNat(n / 10) + [Digit(n % 10)]
  }

  function PrintInt(i: int): string {
    if i < 0 then "-" + PrintNat(-i) else PrintNat(i)
  }

  function Zeros(n: nat): (s: string)
    ensures |s| == n
  {
    if n == 0 then "" else Zeros(n - 1) + "0"
  }

  /** `padStart(width, "0")`. */
  function PadStart(s: string, width: nat): string {
    if |s| >= width then s else Zeros(width - |s|) + s
  }

  /** The number a string of digits denotes. */
  function Value(s: string): nat
    requires AllDigits(s)
  {
    if s == "" then 0 else Value(s[..|s| - 1]) * 10 + DigitValue(s[|s| - 1])
  }

  predicate Digits(s: string)
    ensures Digits(s) <==> AllDigits(s)
  {
    s == "" || (IsDigit(s[0]) && Digits(s[1..]))
  }

  /** A string matching /^[+-]?\d+$/ and its value. */
  function ParseInt(s: string): Option<int> {
    if s == "" then None
    else if s[0] == '-' || s[0] == '+' then
      if s[1..] != "" && Digits(s[1..]) then
        var v: int := Value(s[1..]);
        Some(if s[0] == '-' then -v else v)
      else None
    else if Digits(s) then Some(Value(s)) else None
  }

  function Signed(sign: string, n: int): int {
    if sign == "-" then -n else n
  }

  /** An optional sign and at least one digit. */
  ghost predicate Spells(text: string, sign: string, digits: string, n: int) {
    && text == sign + digits && (sign == "" || sign == "+" || sign == "-")
    && digits != "" && AllDigits(digits) && n == Signed(sign, Value(digits))
  }

  ghost predicate Numeral(text: string, n: int) {
    exists sign, digits :: Spells(text, sign, digits, n)
  }

  lemma ParseJoins(sign: string, digits: string)
    requires sign == "" || sign == "+" || sign == "-"
    requires digits != "" && AllDigits(digits)
    ensures ParseInt(sign + digits) == Some(Signed(sign, Value(digits)))
  {
    hide Value;
    assert sign != "" ==> (sign + digits)[0] == sign[0] && (sign + digits)[1..] == digits;
    assert sign == "" ==> sign + digits == digits && IsDigit(digits[0]);
  }

  /** Parsing succeeds exactly on numerals, with the number they denote. */
  lemma ParseExactly(text: string, n: int)
    ensures ParseInt(text) == Some(n) <==> Numeral(text, n)
  {
    if ParseInt(text) == Some(n) {
      hide Value;
      var signed := text[0] == '-' || text[0] == '+';
      var sign, digits := if signed then [text[0]] else "", if signed then text[1..] else text;
      assert Spells(text, sign, digits, n);
    }
    if Numeral(text, n) {
      var sign, digits :| Spells(text, sign, digits, n);
      ParseJoins(sign, digits);
    }
  }

  lemma {:induction false} PrintedValue(n: nat)
    ensures Value(PrintNat(n)) == n
  {
    if n < 10 {
      assert [Digit(n)][..0] == "";
    } else {
      var s := PrintNat(n);
      assert s[..|s| - 1] == PrintNat(n / 10);
      PrintedValue(n / 10);
    }
  }

  /** Printing and parsing are inverse on every integer. */
  lemma PrintParse(i: int)
    ensures ParseInt(PrintInt(i)) == Some(i)
  {
    if i < 0 {
      PrintedValue(-i);
      assert PrintInt(i)[1..] == PrintNat(-i);
    } else {
      PrintedValue(i);
    }
  }

  /** No leading zero, except in "0" itself. */
  lemma {:induction false} NoLeadingZero(n: nat)
    ensures PrintNat(n)[0] == '0' ==> n == 0
    ensures n < 10 ==> |PrintNat(n)| == 1
  {
    if n >= 10 {
      NoLeadingZero(n / 10);
    }
  }

  lemma {:induction false} ValueAppend(a: string, b: string)
    requires AllDigits(a) && AllDigits(b)
    ensures AllDigits(a + b)
    ensures Value(a + b) == Value(a) * Pow10(|b|) + Value(b)
  {
    if b == "" {
      assert a + b == a;
    } else {
      var front := b[..|b| - 1];
      assert (a + b)[..|a + b| - 1] == a + front;
      ValueAppend(a, front);
      ShiftLeft(Value(a), Pow10(|front|), Value(front), DigitValue(b[|b| - 1]));
    }
  }

  lemma ShiftLeft(v: int, p: int, w: int, d: int)
    ensures (v * p + w) * 10 + d == v * (p * 10) + (w * 10 + d)
  {}

  function Pow10(n: nat): (r: nat)
    ensures r > 0
  {
    if n == 0 then 1 else Pow10(n - 1) * 10
  }

  lemma {:induction false} Pow10Add(a: nat, b: nat)
    ensures Pow10(a + b) == Pow10(a) * Pow10(b)
  {
    if b > 0 {
      Pow10Add(a, b - 1);
      ShiftLeft(Pow10(a), Pow10(b - 1), 0, 0);
    }
  }

  lemma {:induction false} ValueBound(s: string)
    requires AllDigits(s)
    ensures Value(s) < Pow10(|s|)
  {
    if s != "" {
      ValueBound(s[..|s| - 1]);
    }
  }

  /** n needs as many digits as its printed form has: no shorter string of digits denotes it. */
  lemma {:induction false} PrintIsShortest(n: nat, s: string)
    requires s != "" && AllDigits(s) && Value(s) == n
    ensures |PrintNat(n)| <= |s|
  {
    if n >= 10 {
      var front := s[..|s| - 1];
      assert Value(front) == n / 10;
      assert front != "";
      PrintIsShortest(n / 10, front);
    }
  }
}
