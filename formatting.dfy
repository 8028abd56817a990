/**
 * Java's `String.format` conversion `%0<width>d` on an `int`, with ASCII
 * digits: the decimal numeral of the value, preceded by its sign when it is
 * negative, padded with zeros after the sign up to `width` characters.
 * `DecimalValue` reads a run of digits back, and is the inverse the round-trip
 * lemmas use.
 */
module Formatting {

  predicate IsDigit(c: char)
  {
    '0' <= c <= '9'
  }

  predicate AllDigits(s: string)
  {
    forall i :: 0 <= i < |s| ==> IsDigit(s[i])
  }

  function DigitChar(d: int): (c: char)
    requires 0 <= d <= 9
    ensures IsDigit(c) && c as int - '0' as int == d
  {
    ('0' as int + d) as char
  }

  /** The decimal numeral of `n`, with no leading zeros ("0" for zero). */
  function Digits(n: nat): (s: string)
    decreases n
  {
    if n < 10 then [DigitChar(n)] else Digits(n / 10) + [DigitChar(n % 10)]
  }

  /** The number a run of decimal digits denotes. */
  function DecimalValue(s: string): (v: nat)
    requires AllDigits(s)
    decreases |s|
  {
    if s == [] then 0
    else 10 * DecimalValue(s[..|s| - 1]) + (s[|s| - 1] as int - '0' as int)
  }

  /** `k` zeros, or none when `k` is not positive. */
  function Zeros(k: int): (s: string)
    ensures |s| == if k > 0 then k else 0
    ensures forall i :: 0 <= i < |s| ==> s[i] == '0'
    decreases k
  {
    if k <= 0 then [] else ['0'] + Zeros(k - 1)
  }

  function Max(a: int, b: int): int
  {
    if a >= b then a else b
  }

  /** The numeral of `m` preceded by enough zeros to fill `width` characters. */
  function Padded(m: nat, width: int): string
  {
    Zeros(width - |Digits(m)|) + Digits(m)
  }

  /** `String.format("%0" + width + "d", n)`: the sign, if any, comes before the zeros. */
  function ZeroPadded(n: int, width: nat): (s: string)
    ensures |s| >= width && |s| >= 1
    ensures s[0] == '-' <==> n < 0
    ensures forall i :: 1 <= i < |s| ==> IsDigit(s[i])
  {
    if n < 0 then
      PaddedRoundTrip(-n, width - 1);
      "-" + Padded(-n, width - 1)
    else
      PaddedRoundTrip(n, width);
      Padded(n, width)
  }

  function Pow10(k: nat): (p: nat)
    ensures p >= 1
  {
    if k == 0 then 1 else 10 * Pow10(k - 1)
  }

  /** The numeral of `n` is made of digits, reads back as `n`, and never starts with a superfluous zero. */
  lemma {:induction false} DigitsRoundTrip(n: nat)
    ensures |Digits(n)| >= 1 && AllDigits(Digits(n))
    ensures DecimalValue(Digits(n)) == n
    ensures Digits(n)[0] == '0' <==> n == 0
  {
    if n >= 10 {
      DigitsRoundTrip(n / 10);
      var s := Digits(n);
      assert s[..|s| - 1] == Digits(n / 10);
    }
  }

  /** The numeral of `n` has at most `k` digits exactly when `n < 10^k`. */
  lemma {:induction false} DigitsLength(n: nat, k: nat)
    requires k >= 1
    ensures |Digits(n)| <= k <==> n < Pow10(k)
  {
    if n >= 10 {
      if k == 1 {
        DigitsRoundTrip(n / 10);
      } else {
        DigitsLength(n / 10, k - 1);
      }
    }
  }

  /** Leading zeros do not change the value of a numeral. */
  lemma {:induction false} LeadingZeros(k: int, s: string)
    requires AllDigits(s)
    ensures AllDigits(Zeros(k) + s)
    ensures DecimalValue(Zeros(k) + s) == DecimalValue(s)
  {
    if k > 0 {
      LeadingZeros(k - 1, s);
      var t := Zeros(k - 1) + s;
      ZeroPrefix(t);
      assert Zeros(k) == ['0'] + Zeros(k - 1);
      assert Zeros(k) + s == ['0'] + t;
    } else {
      assert Zeros(k) + s == s;
    }
  }

  lemma {:induction false} ZeroPrefix(s: string)
    requires AllDigits(s)
    ensures AllDigits(['0'] + s)
    ensures DecimalValue(['0'] + s) == DecimalValue(s)
    decreases |s|
  {
    if s != [] {
      var t := ['0'] + s;
      assert t[..|t| - 1] == ['0'] + s[..|s| - 1];
      ZeroPrefix(s[..|s| - 1]);
    }
  }

  /** A padded numeral is all digits, as long as the larger of the width and the numeral, and reads back as the value. */
  lemma PaddedRoundTrip(m: nat, width: int)
    ensures AllDigits(Padded(m, width))
    ensures |Padded(m, width)| == Max(width, |Digits(m)|)
    ensures DecimalValue(Padded(m, width)) == m
  {
    DigitsRoundTrip(m);
    LeadingZeros(width - |Digits(m)|, Digits(m));
  }

  /**
   * `%0<width>d` on a non-negative value gives only digits, as many as the
   * larger of `width` and the numeral's length, and they read back as the value.
   */
  lemma ZeroPaddedNonNegative(n: nat, width: nat)
    ensures AllDigits(ZeroPadded(n, width))
    ensures |ZeroPadded(n, width)| == Max(width, |Digits(n)|)
    ensures DecimalValue(ZeroPadded(n, width)) == n
  {
    PaddedRoundTrip(n, width);
  }

  /**
   * On a negative value the sign comes first and the zeros follow it; the
   * digits after the sign read back as the magnitude.
   */
  lemma ZeroPaddedNegative(n: int, width: nat)
    requires n < 0
    ensures ZeroPadded(n, width)[0] == '-'
    ensures AllDigits(ZeroPadded(n, width)[1..])
    ensures |ZeroPadded(n, width)| == Max(width, 1 + |Digits(-n)|)
    ensures DecimalValue(ZeroPadded(n, width)[1..]) == -n
  {
    var p := Padded(-n, width - 1);
    PaddedRoundTrip(-n, width - 1);
    assert ZeroPadded(n, width) == "-" + p;
    assert ("-" + p)[1..] == p;
  }

  /** A value below `10^width` fills exactly `width` characters. */
  lemma ZeroPaddedExactWidth(n: nat, width: nat)
    requires width >= 1 && n < Pow10(width)
    ensures |ZeroPadded(n, width)| == width
  {
    DigitsLength(n, width);
    ZeroPaddedNonNegative(n, width);
  }
}
