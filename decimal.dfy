/** Decimal digit strings: the part of Python's `int(text)` the colour parser
    relies on, and the decimal rendering behind the `{idx:04d}` frame names. */
module Decimal {
  import opened Common

  predicate IsDigit(c: char) {
    '0' <= c <= '9'
  }

  predicate AllDigits(s: string) {
    forall i :: 0 <= i < |s| ==> IsDigit(s[i])
  }

  function DigitValue(c: char): (d: nat)
    requires IsDigit(c)
    ensures d < 10
  {
    c as int - '0' as int
  }

  function DigitChar(d: nat): (c: char)
    requires d < 10
    ensures IsDigit(c) && DigitValue(c) == d
  {
    ('0' as int + d) as char
  }

  function Pow10(k: nat): (p: nat)
    ensures p >= 1
  {
    if k == 0 then 1 else 10 * Pow10(k - 1)
  }

  /** The value of a digit string, most significant digit first. A string of
      k digits denotes a number below 10^k. */
  function DigitsValue(s: string): (n: nat)
    requires AllDigits(s)
    ensures n < Pow10(|s|)
  {
    if s == [] then 0 else DigitsValue(s[..|s| - 1]) * 10 + DigitValue(s[|s| - 1])
  }

  /** The shortest decimal rendering of `n`, as Python's `str(n)`: never
      empty and without a leading zero unless `n` is 0. */
  function NatToDecimal(n: nat): (s: string)
    ensures |s| >= 1 && AllDigits(s)
    ensures s[0] == '0' ==> n == 0 && s == "0"
    ensures n < 10 <==> |s| == 1
  {
    if n < 10 then [DigitChar(n)] else NatToDecimal(n / 10) + [DigitChar(n % 10)]
  }

  /** Reading back the rendering of `n` gives `n`. */
  lemma {:induction false} DecimalRoundTrip(n: nat)
    ensures DigitsValue(NatToDecimal(n)) == n
  {
    if n >= 10 {
      var s := NatToDecimal(n / 10);
      DecimalRoundTrip(n / 10);
      assert NatToDecimal(n)[..|s|] == s;
    }
  }

  /** Renderings below 10^k have at most k digits. */
  lemma {:induction false} DecimalLength(n: nat, k: nat)
    requires n < Pow10(k)
    ensures |NatToDecimal(n)| <= k || (n == 0 && k == 0)
  {
    if n >= 10 {
      DecimalLength(n / 10, k - 1);
    }
  }

  function Zeros(k: nat): (z: string)
    ensures |z| == k && AllDigits(z)
  {
    seq(k, _ => '0')
  }

  /** Python's zero-padding to a minimum field width (`{n:0<width>d}` for a
      non-negative `n`). */
  function ZeroPad(s: string, width: nat): (r: string)
    ensures |r| == if |s| < width then width else |s|
    ensures r[|r| - |s|..] == s
    ensures forall i :: 0 <= i < |r| - |s| ==> r[i] == '0'
  {
    if |s| < width then Zeros(width - |s|) + s else s
  }

  lemma {:induction false} ZerosValue(k: nat)
    ensures DigitsValue(Zeros(k)) == 0
  {
    if k > 0 {
      ZerosValue(k - 1);
      assert Zeros(k)[..k - 1] == Zeros(k - 1);
    }
  }

  /** Leading zeros do not change the value of a digit string. */
  lemma {:induction false} LeadingZerosValue(k: nat, s: string)
    requires AllDigits(s)
    ensures AllDigits(Zeros(k) + s) && DigitsValue(Zeros(k) + s) == DigitsValue(s)
  {
    if s == [] {
      assert Zeros(k) + s == Zeros(k);
      ZerosValue(k);
    } else {
      var t := s[..|s| - 1];
      LeadingZerosValue(k, t);
      assert (Zeros(k) + s)[..|Zeros(k) + s| - 1] == Zeros(k) + t;
    }
  }

  /** The padded rendering still reads back as `n`. */
  lemma PaddedRoundTrip(n: nat, width: nat)
    ensures AllDigits(ZeroPad(NatToDecimal(n), width))
    ensures DigitsValue(ZeroPad(NatToDecimal(n), width)) == n
  {
    DecimalRoundTrip(n);
    PadValue(NatToDecimal(n), width);
  }

  /** Zero-padding a digit string keeps it a digit string of the same value. */
  lemma PadValue(s: string, width: nat)
    requires AllDigits(s)
    ensures AllDigits(ZeroPad(s, width)) && DigitsValue(ZeroPad(s, width)) == DigitsValue(s)
  {
    if |s| < width {
      LeadingZerosValue(width - |s|, s);
    }
  }

  /** A sign followed by at least one more character. */
  predicate Signed(t: string) {
    |t| > 1 && (t[0] == '+' || t[0] == '-')
  }

  /** `int(text)` in base 10, restricted to an optional sign followed by
      ASCII digits; `None` stands for the `ValueError` Python raises. */
  function ParseInt(t: string): (r: Option<int>)
    ensures r.Some? ==> |t| > 0 && (IsDigit(t[0]) || Signed(t))
    ensures r.Some? ==> forall i :: 0 < i < |t| ==> IsDigit(t[i])
    ensures AllDigits(t) && |t| > 0 ==> r == Some(DigitsValue(t))
  {
    if |t| > 0 && (t[0] == '+' || t[0] == '-') then
      var digits := t[1..];
      if |digits| > 0 && AllDigits(digits) then
        var magnitude: int := DigitsValue(digits);
        Some(if t[0] == '-' then -magnitude else magnitude)
      else None
    else if |t| > 0 && AllDigits(t) then Some(DigitsValue(t))
    else None
  }

  /** `int(text)` accepts exactly a non-empty digit string, or a sign
      followed by a non-empty digit string (a lone sign is rejected), and a
      leading minus negates the digits' value. */
  lemma ParseIntExact(t: string)
    ensures ParseInt(t).Some? <==> (|t| > 0 && AllDigits(t)) || (Signed(t) && AllDigits(t[1..]))
    ensures Signed(t) && AllDigits(t[1..]) ==>
      ParseInt(t) == Some(if t[0] == '-' then -(DigitsValue(t[1..]) as int) else DigitsValue(t[1..]))
  {
  }

  /** `int(str(n)) == n` and `int("-" + str(n)) == -n`. */
  lemma ParseIntRoundTrip(n: nat)
    ensures ParseInt(NatToDecimal(n)) == Some(n)
    ensures ParseInt("-" + NatToDecimal(n)) == Some(-(n as int))
  {
    DecimalRoundTrip(n);
    assert ("-" + NatToDecimal(n))[1..] == NatToDecimal(n);
  }
}
