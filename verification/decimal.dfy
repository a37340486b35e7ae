/** Decimal digit strings: their values, Python's `str()` of an integer and
    its inverse. */
module Decimal {
  import opened Wrappers
  import opened Text

  function DigitValue(c: char): nat
    requires IsDigit(c)
  {
    c as int - '0' as int
  }

  function DigitChar(d: nat): (c: char)
    requires d < 10
    ensures IsDigit(c) && DigitValue(c) == d
  {
    ('0' as int + d) as char
  }

  /** The value of a string of decimal digits, most significant first. */
  function DigitsValue(ds: string): nat
    requires AllDigits(ds)
    decreases |ds|
  {
    if |ds| == 0 then 0 else 10 * DigitsValue(ds[..|ds| - 1]) + DigitValue(ds[|ds| - 1])
  }

  function Pow10(k: nat): (p: nat)
    ensures p >= 1
  {
    if k == 0 then 1 else 10 * Pow10(k - 1)
  }

  /** `n` tenths-to-the-`k`: the value of `k` fraction digits whose digit
      string has value `n`. */
  function DecimalFraction(n: nat, k: nat): (r: real)
    ensures r >= 0.0
    ensures r * Pow10(k) as real == n as real
  {
    n as real / Pow10(k) as real
  }

  /** A decimal numeral as `str` writes a natural number: digits only, and
      no leading zero unless the numeral is "0" itself. */
  predicate Canonical(s: string) {
    |s| > 0 && AllDigits(s) && (s[0] == '0' ==> |s| == 1)
  }

  /** A numeral as `str` writes an integer: a canonical numeral, or a minus
      sign before the canonical numeral of a positive number. */
  predicate CanonicalInt(s: string) {
    || Canonical(s)
    || (|s| > 1 && s[0] == '-' && Canonical(s[1..]) && s[1] != '0')
  }

  /** Python's `str(n)` for `n >= 0`. */
  function NatToString(n: nat): (s: string)
    ensures Canonical(s)
    ensures DigitsValue(s) == n
    ensures s[0] == '0' <==> n == 0
    decreases n
  {
    if n < 10 then [DigitChar(n)]
    else
      var s := NatToString(n / 10) + [DigitChar(n % 10)];
      assert s[..|s| - 1] == NatToString(n / 10);
      s
  }

  /** Python's `str(i)` for any integer: a minus sign before negatives. */
  function IntToString(i: int): (s: string)
    ensures CanonicalInt(s)
    ensures ParseInt(s) == Some(i)
  {
    if i < 0 then
      var s := "-" + NatToString(-i);
      assert s[1..] == NatToString(-i);
      s
    else NatToString(i)
  }

  /** Reads an optionally negative decimal integer: a `-` and one or more
      digits, or one or more digits. */
  function ParseInt(s: string): Option<int> {
    if |s| > 0 && s[0] == '-' then
      if |s| > 1 && AllDigits(s[1..]) then Some(-(DigitsValue(s[1..]) as int)) else None
    else if |s| > 0 && AllDigits(s) then Some(DigitsValue(s) as int)
    else None
  }

  lemma {:induction false} Pow10Monotone(k: nat, m: nat)
    requires k <= m
    ensures Pow10(k) <= Pow10(m)
    decreases m - k
  {
    if k < m {
      Pow10Monotone(k, m - 1);
    }
  }

  /** A digit string of length `n` is worth less than `10^n`. */
  lemma {:induction false} DigitsValueBelow(s: string)
    requires AllDigits(s)
    ensures DigitsValue(s) < Pow10(|s|)
    decreases |s|
  {
    if |s| > 0 {
      DigitsValueBelow(s[..|s| - 1]);
    }
  }

  /** A digit string of length `n` without a leading zero is worth at least `10^(n-1)`. */
  lemma {:induction false} DigitsValueAtLeast(s: string)
    requires AllDigits(s) && |s| > 0 && s[0] != '0'
    ensures Pow10(|s| - 1) <= DigitsValue(s)
    decreases |s|
  {
    if |s| > 1 {
      var p := s[..|s| - 1];
      assert p[0] == s[0];
      DigitsValueAtLeast(p);
    }
  }

  /** Digit strings of one length and one value are the same string. */
  lemma {:induction false} SameLengthSameValue(s: string, t: string)
    requires AllDigits(s) && AllDigits(t) && |s| == |t|
    requires DigitsValue(s) == DigitsValue(t)
    ensures s == t
    decreases |s|
  {
    if |s| > 0 {
      var n := |s|;
      var ps, pt := s[..n - 1], t[..n - 1];
      assert DigitValue(s[n - 1]) == DigitValue(t[n - 1]) && DigitsValue(ps) == DigitsValue(pt);
      SameLengthSameValue(ps, pt);
      assert s == ps + [s[n - 1]] && t == pt + [t[n - 1]];
    }
  }

  /** A natural number has one canonical numeral. */
  lemma CanonicalUnique(s: string, t: string)
    requires Canonical(s) && Canonical(t) && DigitsValue(s) == DigitsValue(t)
    ensures s == t
  {
    if |s| < |t| {
      Pow10Monotone(|s|, |t| - 1);
      DigitsValueBelow(s);
      DigitsValueAtLeast(t);
    } else if |t| < |s| {
      Pow10Monotone(|t|, |s| - 1);
      DigitsValueBelow(t);
      DigitsValueAtLeast(s);
    } else {
      SameLengthSameValue(s, t);
    }
  }

  /** `str(i)` is the only numeral written as `str` writes integers that
      reads back as `i`: so a form option compared as text matches it
      exactly when it denotes `i` in that notation. */
  lemma IntToStringUnique(i: int, s: string)
    requires CanonicalInt(s) && ParseInt(s) == Some(i)
    ensures s == IntToString(i)
  {
    var r := IntToString(i);
    if s[0] == '-' {
      var digits := s[1..];
      DigitsValueAtLeast(digits);
      assert i < 0;
      assert r[1..] == NatToString(-i);
      CanonicalUnique(digits, r[1..]);
      assert s == [s[0]] + digits && r == [r[0]] + r[1..];
    } else {
      CanonicalUnique(s, r);
    }
  }
}
