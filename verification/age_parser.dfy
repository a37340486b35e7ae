/** The age-string normaliser: footnote letters deleted, the rest tokenised
    into unsigned decimal numerals, and one or two numerals turned into a
    fractional number of years. */
module AgeParser {
  import opened Wrappers
  import opened Text
  import opened Decimal

  /** A match of the pattern `\d+\.?\d*`: a digit first, then only digits and
      decimal points, and at most one decimal point. */
  predicate IsNumeral(t: string) {
    && |t| > 0
    && IsDigit(t[0])
    && (forall k :: 0 <= k < |t| ==> IsDigit(t[k]) || t[k] == '.')
    && (forall i, j :: 0 <= i < j < |t| && t[i] == '.' ==> t[j] != '.')
  }

  /** The numeral `t` cannot be extended by the text `rest` that follows it:
      the next character is no digit, and is a point only if `t` has one. */
  predicate Boundary(t: string, rest: string) {
    |rest| == 0 || (!IsDigit(rest[0]) && (rest[0] == '.' ==> '.' in t))
  }

  /** Length of the longest all-digit prefix. */
  function DigitRun(s: string): (n: nat)
    ensures n <= |s|
    ensures AllDigits(s[..n])
    ensures n < |s| ==> !IsDigit(s[n])
    decreases |s|
  {
    if |s| > 0 && IsDigit(s[0]) then
      var m := DigitRun(s[1..]);
      assert s[..1 + m] == [s[0]] + s[1..][..m];
      1 + m
    else 0
  }

  /** Length of the greedy match of `\d+\.?\d*` at the start of `s`. */
  function TokenLength(s: string): (n: nat)
    requires |s| > 0 && IsDigit(s[0])
    ensures 0 < n <= |s|
    ensures IsNumeral(s[..n]) && Boundary(s[..n], s[n..])
  {
    var d := DigitRun(s);
    if d < |s| && s[d] == '.' then
      var e := DigitRun(s[d + 1..]);
      var n := d + 1 + e;
      assert s[..n][d] == '.';
      assert forall k :: d < k < n ==> s[..n][k] == s[d + 1..][k - d - 1];
      n
    else
      assert forall k :: 0 <= k < d ==> s[..d][k] == s[k];
      d
  }

  /** A numeral prefix of `s` that cannot be extended is unique. */
  lemma NumeralPrefixUnique(s: string, m: nat, n: nat)
    requires m <= |s| && IsNumeral(s[..m]) && Boundary(s[..m], s[m..])
    requires n <= |s| && IsNumeral(s[..n]) && Boundary(s[..n], s[n..])
    ensures m == n
  {
    if m < n {
      ShorterNumeralExtends(s, m, n);
      assert false;
    } else if n < m {
      ShorterNumeralExtends(s, n, m);
      assert false;
    }
  }

  /** A numeral prefix that a longer numeral prefix contains can be extended. */
  lemma ShorterNumeralExtends(s: string, m: nat, n: nat)
    requires m < n <= |s| && IsNumeral(s[..m]) && IsNumeral(s[..n])
    ensures !Boundary(s[..m], s[m..])
  {
    assert s[m..][0] == s[..n][m];
    assert forall i :: 0 <= i < m ==> s[..m][i] == s[..n][i];
  }

  /** The greedy match at the start of `t + rest` is exactly the numeral `t`
      when `rest` cannot extend it. */
  lemma TokenLengthOfNumeral(t: string, rest: string)
    requires IsNumeral(t) && Boundary(t, rest)
    ensures IsDigit((t + rest)[0])
    ensures TokenLength(t + rest) == |t|
  {
    var s := t + rest;
    assert s[..|t|] == t && s[|t|..] == rest;
    NumeralPrefixUnique(s, |t|, TokenLength(s));
  }

  /** `re.findall(r'\d+\.?\d*', s)`: scans left to right, skipping every
      character that cannot start a match and taking the greedy match at
      every digit. */
  function Tokens(s: string): (ts: seq<string>)
    ensures forall k :: 0 <= k < |ts| ==> IsNumeral(ts[k])
    decreases |s|
  {
    if |s| == 0 then []
    else if IsDigit(s[0]) then
      var n := TokenLength(s);
      [s[..n]] + Tokens(s[n..])
    else Tokens(s[1..])
  }

  /** Text without digits before the rest adds no tokens. */
  lemma {:induction false} TokensSkipGap(g: string, s: string)
    requires NoDigits(g)
    ensures Tokens(g + s) == Tokens(s)
    decreases |g|
  {
    if |g| == 0 {
      assert g + s == s;
    } else {
      assert (g + s)[0] == g[0];
      assert (g + s)[1..] == g[1..] + s;
      TokensSkipGap(g[1..], s);
    }
  }

  /** A numeral that the following text cannot extend is one whole token. */
  lemma TokensTakeNumeral(t: string, rest: string)
    requires IsNumeral(t) && Boundary(t, rest)
    ensures Tokens(t + rest) == [t] + Tokens(rest)
  {
    TokenLengthOfNumeral(t, rest);
    var s := t + rest;
    assert s[..|t|] == t && s[|t|..] == rest;
  }

  /** Text with neither digits nor points after the rest adds no tokens and
      changes none. */
  lemma {:induction false} TokensDropTail(x: string, w: string)
    requires NoDigits(w) && NoDots(w)
    ensures Tokens(x + w) == Tokens(x)
    decreases |x|
  {
    if |x| == 0 {
      assert x + w == w + [];
      TokensSkipGap(w, []);
    } else if !IsDigit(x[0]) {
      assert (x + w)[1..] == x[1..] + w;
      TokensDropTail(x[1..], w);
    } else {
      var n := TokenLength(x);
      var t := x[..n];
      assert x == t + x[n..];
      assert x + w == t + (x[n..] + w);
      assert Boundary(t, x[n..] + w);
      TokensTakeNumeral(t, x[n..] + w);
      TokensDropTail(x[n..], w);
    }
  }

  /** Stripping whitespace never changes the tokens. */
  lemma TokensOfStrip(s: string)
    ensures Tokens(Strip(s)) == Tokens(s)
  {
    var r := Strip(s);
    StripSlice(s);
    var i :| StrippedAt(s, i, r);
    var front, back := s[..i], s[i + |r|..];
    SpaceIsNotNumeric(front);
    SpaceIsNotNumeric(back);
    assert s == front + (r + back);
    TokensSkipGap(front, r + back);
    TokensDropTail(r, back);
  }

  /** The exact value of a numeral: `float(t)` without rounding. */
  function NumeralValue(t: string): (v: real)
    requires IsNumeral(t)
    ensures v >= 0.0
  {
    var d := DigitRun(t);
    var whole := DigitsValue(t[..d]) as real;
    if d == |t| then whole
    else
      assert t[d] == '.';
      assert forall k :: d < k < |t| ==> t[k] != '.';
      assert forall k :: d < k < |t| ==> IsDigit(t[k]);
      whole + DecimalFraction(DigitsValue(t[d + 1..]), |t| - d - 1)
  }

  /** `parse_age_string`: letters deleted, the rest stripped and tokenised;
      one token is a number of years, two are years and months, anything
      else is no age. */
  function NormalizeAge(text: string): (r: Option<real>)
    ensures r.Some? ==> r.value >= 0.0
  {
    AgeOfParts(Tokens(Strip(RemoveLetters(text))))
  }

  /** The age the numerals found in an age text stand for. */
  function AgeOfParts(parts: seq<string>): (r: Option<real>)
    requires forall k :: 0 <= k < |parts| ==> IsNumeral(parts[k])
    ensures r.Some? ==> r.value >= 0.0
  {
    if |parts| == 2 then Some(YearsAndMonths(NumeralValue(parts[0]), NumeralValue(parts[1])))
    else if |parts| == 1 then Some(NumeralValue(parts[0]))
    else None
  }

  /** A whole number of years and a number of months, in years. */
  function YearsAndMonths(years: real, months: real): real {
    years + months / 12.0
  }
}
