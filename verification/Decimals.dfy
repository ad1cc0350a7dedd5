/** Decimal numbers: `String(n)` of a natural number and `Number(s)` of digits. */
module Decimals {

  predicate IsDigit(c: char) {
    '0' <= c <= '9'
  }

  predicate Digits(s: string) {
    forall c | c in s :: IsDigit(c)
  }

  function DigitValue(c: char): nat {
    if IsDigit(c) then c as nat - '0' as nat else 0
  }

  /** `Number(s)` of decimal digits. */
  function Number(s: string): nat {
    if s == "" then 0 else 10 * Number(s[..|s| - 1]) + DigitValue(s[|s| - 1])
  }

  function Digit(d: nat): char
    requires d < 10
  {
    "0123456789"[d]
  }

  function Decimal(n: nat): string {
    if n < 10 then [Digit(n)] else Decimal(n / 10) + [Digit(n % 10)]
  }

  lemma {:induction false} DecimalDigits(n: nat)
    ensures Decimal(n) != "" && Digits(Decimal(n))
  {
    if n >= 10 { DecimalDigits(n / 10); }
  }

  lemma {:induction false} DecimalIsInjective(m: nat, n: nat)
    requires Decimal(m) == Decimal(n)
    ensures m == n
  {
    DecimalSplits(m);
    DecimalSplits(n);
    if m >= 10 && n >= 10 {
      DecimalIsInjective(m / 10, n / 10);
    }
  }

  lemma DecimalSplits(n: nat)
    ensures var s := Decimal(n);
      && |s| >= 1 && s[|s| - 1] == Digit(n % 10)
      && (n < 10 <==> |s| == 1) && (n >= 10 ==> s[..|s| - 1] == Decimal(n / 10))
  {
    if n >= 10 { DecimalDigits(n / 10); }
  }

  /** Reading what was written. */
  lemma {:induction false} NumberOfDecimal(n: nat)
    ensures Number(Decimal(n)) == n
  {
    if n >= 10 {
      NumberOfDecimal(n / 10);
      DecimalSplits(n);
    }
  }

  /** Positive numbers are written with digits and no zero in front. */
  predicate IsNumeral(s: string) {
    s != "" && Digits(s) && s[0] != '0'
  }

  lemma {:induction false} DecimalIsNumeral(n: nat)
    requires n > 0
    ensures IsNumeral(Decimal(n))
  {
    if n >= 10 {
      DecimalIsNumeral(n / 10);
      DecimalDigits(n / 10);
    }
  }

  lemma DigitOfValue(c: char)
    requires IsDigit(c)
    ensures DigitValue(c) < 10 && Digit(DigitValue(c)) == c
  {
  }

  lemma DecimalBehind(n: nat, d: nat)
    requires n > 0 && d < 10
    ensures Decimal(10 * n + d) == Decimal(n) + [Digit(d)]
  {
    assert (10 * n + d) / 10 == n && (10 * n + d) % 10 == d;
  }

  lemma {:induction false} NumeralIsDecimal(s: string)
    requires IsNumeral(s)
    ensures Number(s) > 0 && Decimal(Number(s)) == s
  {
    var front, last := s[..|s| - 1], s[|s| - 1];
    assert last in s;
    DigitOfValue(last);
    if front == "" {
      OneDigit(s);
    } else {
      NumeralFront(s);
      NumeralIsDecimal(front);
      DecimalBehind(Number(front), DigitValue(last));
      LastDigitOff(s);
      LastOff(s);
    }
  }

  lemma OneDigit(s: string)
    requires IsNumeral(s) && |s| == 1
    ensures Number(s) == DigitValue(s[0]) > 0 && Decimal(Number(s)) == s
  {
    assert s[0] in s && s[..0] == "" && s == [s[0]];
    DigitOfValue(s[0]);
    assert Number(s[..0]) == 0;
  }

  lemma LastDigitOff(s: string)
    requires s != ""
    ensures Number(s) == 10 * Number(s[..|s| - 1]) + DigitValue(s[|s| - 1])
  {
  }

  lemma LastOff<T>(s: seq<T>)
    requires s != []
    ensures s == s[..|s| - 1] + [s[|s| - 1]]
  {
  }

  lemma NumeralFront(s: string)
    requires IsNumeral(s) && |s| > 1
    ensures IsNumeral(s[..|s| - 1])
  {
    assert forall c | c in s[..|s| - 1] :: c in s;
  }

  function Power(n: nat): nat {
    if n == 0 then 1 else 10 * Power(n - 1)
  }

  lemma {:induction false} NumberBound(s: string)
    ensures Number(s) < Power(|s|)
  {
    if s != "" { NumberBound(s[..|s| - 1]); }
  }

  /** The number's last digits, with leading zeros. */
  function Padded(n: nat, width: nat): string
    decreases width
  {
    if width == 0 then "" else Padded(n / 10, width - 1) + [Digit(n % 10)]
  }

  lemma {:induction false} PaddedDigits(n: nat, width: nat)
    ensures |Padded(n, width)| == width && Digits(Padded(n, width))
    decreases width
  {
    if width > 0 { PaddedDigits(n / 10, width - 1); }
  }

  lemma {:induction false} NumberOfPadded(n: nat, width: nat)
    requires n < Power(width)
    ensures |Padded(n, width)| == width && Digits(Padded(n, width)) && Number(Padded(n, width)) == n
    decreases width
  {
    PaddedDigits(n, width);
    if width > 0 {
      assert n / 10 < Power(width - 1);
      NumberOfPadded(n / 10, width - 1);
      NumberAppend(Padded(n / 10, width - 1), n % 10);
    }
  }

  lemma NumberAppend(s: string, d: nat)
    requires d < 10
    ensures Number(s + [Digit(d)]) == 10 * Number(s) + d
  {
    var longer := s + [Digit(d)];
    assert longer[..|longer| - 1] == s;
  }
}
