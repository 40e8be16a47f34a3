/** Exact fee formatting (src/cost.ts). */
module Fee {
  import opened Wrappers
  import opened Arithmetic
  import opened Decimal

  const STROOPS_PER_XLM := 10_000_000

  /** The argument of formatFee: a bigint, a string, or a value of any other type. */
  datatype Stroops = BigInt(value: int) | Text(text: string) | OtherType

  datatype FeeError = Negative | NotDecimal | WrongType

  function ParseStroops(stroops: Stroops): Result<nat, FeeError> {
    match stroops
    case BigInt(value) => if value < 0 then Err(Negative) else Ok(value)
    case Text(text) => if text != "" && Digits(text) then Ok(Value(text)) else Err(NotDecimal)
    case OtherType => Err(WrongType)
  }

  /** `replace(/0+$/, "")`. */
  function StripZeros(s: string): string {
    if s != "" && s[|s| - 1] == '0' then StripZeros(s[..|s| - 1]) else s
  }

  function FormatAmount(value: nat): string {
    var whole := value / STROOPS_PER_XLM;
    var fraction := value % STROOPS_PER_XLM;
    var fractionDigits := StripZeros(PadStart(PrintNat(fraction), 7));
    if |fractionDigits| == 0 then PrintNat(whole) else PrintNat(whole) + "." + fractionDigits
  }

  function FormatFee(stroops: Stroops): Result<string, FeeError> {
    match ParseStroops(stroops)
    case Ok(value) => Ok(FormatAmount(value))
    case Err(error) => Err(error)
  }

  // ---- Decimal notation: the reference reading ----

  /** `\d+(\.\d+)?`; an empty fraction stands for no point at all. */
  datatype Numeral = Numeral(whole: string, fraction: string)

  ghost predicate WellFormed(m: Numeral) {
    m.whole != "" && AllDigits(m.whole) && AllDigits(m.fraction)
  }

  function Show(m: Numeral): string {
    if m.fraction == "" then m.whole else m.whole + "." + m.fraction
  }

  function DigitPrefix(s: string): string {
    if s != "" && IsDigit(s[0]) then [s[0]] + DigitPrefix(s[1..]) else ""
  }

  function ReadDecimal(s: string): Option<Numeral> {
    var w := DigitPrefix(s);
    if w == "" then None
    else if w == s then Some(Numeral(s, ""))
    else if |w| < |s| && s[|w|] == '.' && s[|w| + 1..] != "" && Digits(s[|w| + 1..]) then
      Some(Numeral(w, s[|w| + 1..]))
    else None
  }

  /** The numeral, times 10^7, is n: (whole + fraction / 10^|fraction|) * 10^7 == n without division. */
  ghost predicate Denotes(m: Numeral, n: nat)
    requires WellFormed(m)
  {
    var p := Pow10(|m.fraction|);
    (Value(m.whole) * p + Value(m.fraction)) * Pow10(7) == n * p
  }

  /** No superfluous leading zero, no fractional trailing zero. */
  ghost predicate Canonical(m: Numeral) {
    && WellFormed(m)
    && (|m.whole| > 1 ==> m.whole[0] != '0')
    && (m.fraction != "" ==> m.fraction[|m.fraction| - 1] != '0')
  }

  lemma {:induction false} PrefixOfDigits(a: string, b: string)
    requires AllDigits(a) && (b != "" ==> !IsDigit(b[0]))
    ensures DigitPrefix(a + b) == a
  {
    if a == "" {
      assert a + b == b;
    } else {
      assert (a + b)[1..] == a[1..] + b;
      PrefixOfDigits(a[1..], b);
    }
  }

  lemma ReadShow(m: Numeral)
    requires WellFormed(m)
    ensures ReadDecimal(Show(m)) == Some(m)
  {
    if m.fraction == "" {
      PrefixOfDigits(m.whole, "");
      assert m.whole + "" == m.whole;
    } else {
      var rest := "." + m.fraction;
      assert Show(m) == m.whole + rest;
      PrefixOfDigits(m.whole, rest);
      assert Show(m)[|m.whole| + 1..] == m.fraction;
    }
  }

  // ---- Zeros ----

  lemma {:induction false} ZerosValue(n: nat)
    ensures AllDigits(Zeros(n)) && Value(Zeros(n)) == 0
  {
    if n > 0 {
      ZerosValue(n - 1);
      assert Zeros(n)[..n - 1] == Zeros(n - 1);
    }
  }

  lemma {:induction false} StripSplits(s: string)
    ensures |StripZeros(s)| <= |s|
    ensures s == StripZeros(s) + Zeros(|s| - |StripZeros(s)|)
    ensures StripZeros(s) != "" ==> StripZeros(s)[|StripZeros(s)| - 1] != '0'
    ensures StripZeros(s) <= s
  {
    if s != "" && s[|s| - 1] == '0' {
      StripSplits(s[..|s| - 1]);
      assert s == s[..|s| - 1] + "0";
    }
  }

  lemma {:induction false} StripUndoes(f: string, n: nat)
    requires f != "" ==> f[|f| - 1] != '0'
    ensures StripZeros(f + Zeros(n)) == f
  {
    if n == 0 {
      assert f + Zeros(0) == f;
    } else {
      assert (f + Zeros(n))[..|f| + n - 1] == f + Zeros(n - 1);
      StripUndoes(f, n - 1);
    }
  }

  lemma UnitsAndTens(x: int, d: int, y: int, e: int)
    requires 0 <= d < 10 && 0 <= e < 10 && x * 10 + d == y * 10 + e
    ensures x == y && d == e
  {}

  /** A string of digits is determined by its length and the number it denotes. */
  lemma {:induction false} SameValueSameDigits(a: string, b: string)
    requires AllDigits(a) && AllDigits(b) && |a| == |b| && Value(a) == Value(b)
    ensures a == b
  {
    if a != "" {
      var k := |a| - 1;
      assert AllDigits(a[..k]) && AllDigits(b[..k]);
      var x, y, d, e := Value(a[..k]), Value(b[..k]), DigitValue(a[k]), DigitValue(b[k]);
      assert x * 10 + d == y * 10 + e;
      UnitsAndTens(x, d, y, e);
      SameValueSameDigits(a[..k], b[..k]);
      assert a == a[..k] + [a[k]] && b == b[..k] + [b[k]];
    }
  }

  lemma {:induction false} PrintLength(n: nat, k: nat)
    requires k >= 1 && n < Pow10(k)
    ensures |PrintNat(n)| <= k
  {
    if n >= 10 {
      assert k >= 2;
      PrintLength(n / 10, k - 1);
    }
  }

  lemma Pow10Seven()
    ensures Pow10(7) == STROOPS_PER_XLM
  {
    assert Pow10(2) == 100;
    assert Pow10(4) == 10_000;
    assert Pow10(6) == 1_000_000;
  }

  lemma PaddedFraction(n: nat)
    requires n < STROOPS_PER_XLM
    ensures var s := PadStart(PrintNat(n), 7); |s| == 7 && AllDigits(s) && Value(s) == n
  {
    hide Pow10, PrintNat, Value, Zeros;
    Pow10Seven();
    PrintLength(n, 7);
    PrintedValue(n);
    var z := Zeros(7 - |PrintNat(n)|);
    ZerosValue(|z|);
    ValueAppend(z, PrintNat(n));
    assert z + PrintNat(n) == PadStart(PrintNat(n), 7);
  }

  /** Appending zeros to a fraction scales it. */
  lemma ScaledFraction(f: string, n: nat)
    requires AllDigits(f)
    ensures AllDigits(f + Zeros(n)) && Value(f + Zeros(n)) == Value(f) * Pow10(n)
  {
    ZerosValue(n);
    ValueAppend(f, Zeros(n));
  }

  // ---- What formatFee prints ----

  function AmountNumeral(n: nat): Numeral {
    Numeral(PrintNat(n / STROOPS_PER_XLM), StripZeros(PadStart(PrintNat(n % STROOPS_PER_XLM), 7)))
  }

  lemma ScaleUp(w: int, f: int, p: int, r: int, n: int, rest: int, k: int)
    requires p * r == k && f * r == rest && n == w * k + rest
    ensures (w * p + f) * k == n * p
  {
    calc {
      (w * p + f) * k;
      (w * p) * k + f * k;
      { assert f * k == f * (p * r) == (f * r) * p; }
      (w * p) * k + rest * p;
      { assert (w * p) * k == (w * k) * p; }
      (w * k + rest) * p;
    }
  }

  lemma FractionDenotes(m: Numeral, n: nat, r: nat)
    requires WellFormed(m) && |m.fraction| <= 7
    requires r == Value(m.fraction) * Pow10(7 - |m.fraction|) && n == Value(m.whole) * Pow10(7) + r
    ensures Denotes(m, n)
  {
    var k := |m.fraction|;
    Pow10Add(k, 7 - k);
    ScaleUp(Value(m.whole), Value(m.fraction), Pow10(k), Pow10(7 - k), n, r, Pow10(7));
  }

  lemma CanonicalAmount(n: nat)
    ensures Canonical(AmountNumeral(n)) && |AmountNumeral(n).fraction| <= 7
    ensures Value(AmountNumeral(n).whole) == n / STROOPS_PER_XLM
    ensures Value(AmountNumeral(n).fraction) * Pow10(7 - |AmountNumeral(n).fraction|) == n % STROOPS_PER_XLM
  {
    hide Value, Pow10, PadStart, PrintNat, StripZeros;
    var rest := n % STROOPS_PER_XLM;
    var padded := PadStart(PrintNat(rest), 7);
    PaddedFraction(rest);
    StripSplits(padded);
    ScaledFraction(StripZeros(padded), 7 - |StripZeros(padded)|);
    PrintedValue(n / STROOPS_PER_XLM);
    NoLeadingZero(n / STROOPS_PER_XLM);
  }

  /** Exact, canonical notation: no trailing fractional zero, no bare point, no leading zero. */
  lemma AmountIsExact(n: nat)
    ensures FormatAmount(n) == Show(AmountNumeral(n))
    ensures Canonical(AmountNumeral(n)) && Denotes(AmountNumeral(n), n)
    ensures ReadDecimal(FormatAmount(n)) == Some(AmountNumeral(n))
  {
    CanonicalAmount(n);
    Pow10Seven();
    FractionDenotes(AmountNumeral(n), n, n % STROOPS_PER_XLM);
    ReadShow(AmountNumeral(n));
  }

  lemma DivMod(n: int, k: int, q: int, r: int)
    requires 0 <= r < k && n == q * k + r
    ensures n / k == q && n % k == r
  {
    var dq := n / k;
    assert n == dq * k + n % k;
    if dq > q {
      MulMonotone(q + 1, dq, k);
    } else if dq < q {
      MulMonotone(dq + 1, q, k);
    }
  }

  lemma TimesBound(f: int, p: int, r: int)
    requires 0 <= f < p && r > 0
    ensures 0 <= f * r < p * r
  {}

  lemma LongFraction(w: int, f: int, k: int, q: int, n: int)
    requires k > 0 && (w * (k * (q * 10)) + f) * k == n * (k * (q * 10))
    ensures f % 10 == 0
  {
    assert n * (k * (q * 10)) == (n * q * 10) * k;
    CancelFactor(w * (k * (q * 10)) + f, n * q * 10, k);
    assert w * (k * (q * 10)) == (w * k * q) * 10;
    assert f == (n * q - w * k * q) * 10;
  }

  /** A canonical numeral of an integer amount has at most seven fractional digits. */
  lemma AtMostSeven(m: Numeral, n: nat)
    requires Canonical(m) && Denotes(m, n)
    ensures |m.fraction| <= 7
  {
    var f := m.fraction;
    if |f| > 7 {
      Pow10Add(7, |f| - 7);
      LongFraction(Value(m.whole), Value(f), Pow10(7), Pow10(|f| - 8), n);
      LastDigit(f);
    }
  }

  lemma LastDigit(s: string)
    requires s != "" && AllDigits(s)
    ensures Value(s) % 10 == 0 <==> s[|s| - 1] == '0'
  {}

  lemma Unscale(w: int, f: int, p: int, r: int, n: int, k: int)
    requires p > 0 && p * r == k && (w * p + f) * k == n * p
    ensures n == w * k + f * r
  {
    calc {
      (w * p + f) * k;
      w * p * k + f * k;
      { assert w * p * k == (w * k) * p; assert f * k == f * (p * r) == (f * r) * p; }
      (w * k) * p + (f * r) * p;
      (w * k + f * r) * p;
    }
    CancelFactor(n, w * k + f * r, p);
  }

  /** Canonical fractions of the same amount are the same digits. */
  lemma FractionIsUnique(m: Numeral, n: nat)
    requires Canonical(m) && Denotes(m, n)
    ensures Value(m.whole) == n / STROOPS_PER_XLM
    ensures m.fraction == AmountNumeral(n).fraction
  {
    hide Pow10, Value, Zeros, PrintNat, PadStart, StripZeros, AllDigits;
    AtMostSeven(m, n);
    Pow10Seven();
    var f := m.fraction;
    var r := Pow10(7 - |f|);
    Pow10Add(|f|, 7 - |f|);
    Unscale(Value(m.whole), Value(f), Pow10(|f|), r, n, STROOPS_PER_XLM);
    ValueBound(f);
    TimesBound(Value(f), Pow10(|f|), r);
    DivMod(n, STROOPS_PER_XLM, Value(m.whole), Value(f) * r);
    ScaledFraction(f, 7 - |f|);
    PaddedFraction(n % STROOPS_PER_XLM);
    SameValueSameDigits(f + Zeros(7 - |f|), PadStart(PrintNat(n % STROOPS_PER_XLM), 7));
    StripUndoes(f, 7 - |f|);
  }

  lemma {:induction false} CanonicalWhole(s: string)
    requires s != "" && AllDigits(s) && (|s| > 1 ==> s[0] != '0')
    ensures s == PrintNat(Value(s))
    decreases |s|
  {
    var front := s[..|s| - 1];
    assert s == front + [s[|s| - 1]];
    assert [Digit(DigitValue(s[|s| - 1]))] == [s[|s| - 1]];
    if front != "" {
      CanonicalWhole(front);
      assert s[0] == front[0] && PrintNat(0)[0] == '0';
      assert Value(front) != 0;
    }
  }

  /**
   formatFee's text is the only canonical notation of the amount; in particular formatting what a
   canonical text denotes gives that text back.
   */
  lemma {:induction false} FormatInvertsReading(m: Numeral, n: nat)
    requires Canonical(m) && Denotes(m, n)
    ensures Show(m) == FormatAmount(n)
  {
    FractionIsUnique(m, n);
    CanonicalWhole(m.whole);
  }

  lemma Rescale(w: int, g: int, p: int, r: int, n: int, k: int)
    requires r > 0 && (w * (p * r) + g * r) * k == n * (p * r)
    ensures (w * p + g) * k == n * p
  {
    assert w * (p * r) + g * r == (w * p + g) * r;
    assert ((w * p + g) * r) * k == ((w * p + g) * k) * r;
    assert n * (p * r) == (n * p) * r;
    CancelFactor((w * p + g) * k, n * p, r);
  }

  lemma StripKeepsMeaning(m: Numeral, n: nat)
    requires WellFormed(m) && Denotes(m, n)
    ensures WellFormed(m.(fraction := StripZeros(m.fraction)))
    ensures Denotes(m.(fraction := StripZeros(m.fraction)), n)
  {
    var f, g := m.fraction, StripZeros(m.fraction);
    StripSplits(f);
    ScaledFraction(g, |f| - |g|);
    Pow10Add(|g|, |f| - |g|);
    Rescale(Value(m.whole), Value(g), Pow10(|g|), Pow10(|f| - |g|), n, Pow10(7));
  }

  lemma StripWhole(s: string) returns (t: string)
    requires s != "" && AllDigits(s)
    ensures t != "" && AllDigits(t) && Value(t) == Value(s) && (|t| > 1 ==> t[0] != '0') && |t| <= |s|
  {
    t := PrintNat(Value(s));
    PrintedValue(Value(s));
    NoLeadingZero(Value(s));
    PrintIsShortest(Value(s), s);
  }

  /** No decimal notation of the amount is shorter than formatFee's. */
  lemma AmountIsShortest(m: Numeral, n: nat)
    requires WellFormed(m) && Denotes(m, n)
    ensures |FormatAmount(n)| <= |Show(m)|
  {
    var g := StripZeros(m.fraction);
    StripKeepsMeaning(m, n);
    StripSplits(m.fraction);
    var t := StripWhole(m.whole);
    FormatInvertsReading(Numeral(t, g), n);
  }

  /**
   formatFee, end to end: it fails on a negative bigint, on text that is not all digits and on any other type,
   and otherwise its text denotes the fee exactly and no notation of the fee is shorter.
   */
  lemma FormatFeeIsExact(stroops: Stroops)
    ensures FormatFee(stroops).Err? <==>
      match stroops
      case BigInt(value) => value < 0
      case Text(text) => text == "" || !AllDigits(text)
      case OtherType => true
    ensures FormatFee(stroops).Ok? ==>
      && ParseStroops(stroops).Ok?
      && var read := ReadDecimal(FormatFee(stroops).value);
      && read.Some? && Canonical(read.value) && Denotes(read.value, ParseStroops(stroops).value)
      && forall m :: WellFormed(m) && Denotes(m, ParseStroops(stroops).value)
           ==> |FormatFee(stroops).value| <= |Show(m)|
  {
    if ParseStroops(stroops).Ok? {
      var n := ParseStroops(stroops).value;
      AmountIsExact(n);
      forall m | WellFormed(m) && Denotes(m, n)
        ensures |FormatAmount(n)| <= |Show(m)|
      {
        AmountIsShortest(m, n);
      }
    }
  }

  lemma DenotesOne(m: Numeral, a: nat, b: nat)
    requires WellFormed(m) && Denotes(m, a) && Denotes(m, b)
    ensures a == b
  {
    CancelFactor(a, b, Pow10(|m.fraction|));
  }

  /** Different amounts print differently. */
  lemma FormatIsInjective(a: nat, b: nat)
    ensures FormatAmount(a) == FormatAmount(b) <==> a == b
  {
    if FormatAmount(a) == FormatAmount(b) {
      AmountIsExact(a);
      AmountIsExact(b);
      DenotesOne(AmountNumeral(a), a, b);
    }
  }
}
