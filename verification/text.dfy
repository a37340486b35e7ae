/** Character classes and the string operations the scraper applies to
    rendered cell text: letter removal, whitespace stripping and substring
    search. Characters are Unicode scalar values. */
module Text {

  /** An ASCII decimal digit. */
  predicate IsDigit(c: char) {
    '0' <= c <= '9'
  }

  /** A character of the class `[a-zA-Z]`. */
  predicate IsAsciiLetter(c: char) {
    'a' <= c <= 'z' || 'A' <= c <= 'Z'
  }

  /** A character Python's `str.isspace` accepts, hence one `str.strip()` removes. */
  predicate IsSpace(c: char) {
    || '\t' <= c <= '\r'
    || '\U{1C}' <= c <= '\U{1F}'
    || c == ' '
    || c == '\U{85}'
    || c == '\U{A0}'
    || c == '\U{1680}'
    || '\U{2000}' <= c <= '\U{200A}'
    || c == '\U{2028}'
    || c == '\U{2029}'
    || c == '\U{202F}'
    || c == '\U{205F}'
    || c == '\U{3000}'
  }

  predicate AllDigits(s: string) {
    forall k :: 0 <= k < |s| ==> IsDigit(s[k])
  }

  predicate NoDigits(s: string) {
    forall k :: 0 <= k < |s| ==> !IsDigit(s[k])
  }

  predicate NoDots(s: string) {
    forall k :: 0 <= k < |s| ==> s[k] != '.'
  }

  predicate AllSpace(s: string) {
    forall k :: 0 <= k < |s| ==> IsSpace(s[k])
  }

  predicate NoLetters(s: string) {
    forall k :: 0 <= k < |s| ==> !IsAsciiLetter(s[k])
  }

  /** Whitespace is neither a digit, nor a decimal point, nor a letter. */
  lemma SpaceIsNotNumeric(s: string)
    requires AllSpace(s)
    ensures NoDigits(s) && NoDots(s) && NoLetters(s)
  {
  }

  /** `re.sub(r'[a-zA-Z]', '', s)`: every ASCII letter deleted, every other
      character kept. */
  function RemoveLetters(s: string): (r: string)
    ensures NoLetters(r)
    decreases |s|
  {
    if |s| == 0 then []
    else (if IsAsciiLetter(s[0]) then [] else [s[0]]) + RemoveLetters(s[1..])
  }

  /** Letter removal keeps every other character as often as it occurs. */
  lemma {:induction false} RemoveLettersCounts(s: string)
    ensures forall c :: !IsAsciiLetter(c) ==> multiset(RemoveLetters(s))[c] == multiset(s)[c]
    decreases |s|
  {
    if |s| > 0 {
      assert s == [s[0]] + s[1..];
      RemoveLettersCounts(s[1..]);
    }
  }

  /** Letter removal works piecewise, so it keeps the order of what it keeps. */
  lemma {:induction false} RemoveLettersAppend(a: string, b: string)
    ensures RemoveLetters(a + b) == RemoveLetters(a) + RemoveLetters(b)
    decreases |a|
  {
    if |a| == 0 {
      assert a + b == b;
    } else {
      assert (a + b)[1..] == a[1..] + b;
      RemoveLettersAppend(a[1..], b);
    }
  }

  /** Inserting a letter anywhere changes nothing once letters are removed. */
  lemma RemoveLettersInsert(a: string, b: string, c: char)
    requires IsAsciiLetter(c)
    ensures RemoveLetters(a + [c] + b) == RemoveLetters(a + b)
  {
    RemoveLettersAppend(a, [c]);
    assert RemoveLetters([c]) == [];
    RemoveLettersAppend(a + [c], b);
    RemoveLettersAppend(a, b);
  }

  /** A character that is not a letter survives letter removal. */
  lemma RemoveLettersKeeps(s: string, k: nat)
    requires k < |s| && !IsAsciiLetter(s[k])
    ensures s[k] in RemoveLetters(s)
  {
    RemoveLettersCounts(s);
    assert s[k] in multiset(s);
  }

  /** Every character left by letter removal was in the input. */
  lemma RemoveLettersFrom(s: string, k: nat)
    requires k < |RemoveLetters(s)|
    ensures RemoveLetters(s)[k] in s
  {
    var r := RemoveLetters(s);
    RemoveLettersCounts(s);
    assert r[k] in multiset(r);
  }

  /** Text without letters is left as it is. */
  lemma {:induction false} RemoveLettersIdentity(s: string)
    requires NoLetters(s)
    ensures RemoveLetters(s) == s
    decreases |s|
  {
    if |s| > 0 {
      RemoveLettersIdentity(s[1..]);
      assert s == [s[0]] + s[1..];
    }
  }

  /** Leading whitespace removed (`str.lstrip()`). */
  function TrimStart(s: string): string
    decreases |s|
  {
    if |s| > 0 && IsSpace(s[0]) then TrimStart(s[1..]) else s
  }

  /** Trailing whitespace removed (`str.rstrip()`). */
  function TrimEnd(s: string): string
    decreases |s|
  {
    if |s| > 0 && IsSpace(s[|s| - 1]) then TrimEnd(s[..|s| - 1]) else s
  }

  /** `str.strip()`: the input with the whitespace at both ends cut off. */
  function Strip(s: string): string {
    TrimEnd(TrimStart(s))
  }

  /** `lstrip` cuts off an all-whitespace prefix and no more. */
  lemma {:induction false} TrimStartSlice(s: string)
    ensures var r := TrimStart(s);
      && |r| <= |s| && r == s[|s| - |r|..]
      && AllSpace(s[..|s| - |r|])
      && (|r| == 0 || !IsSpace(r[0]))
    decreases |s|
  {
    if |s| > 0 && IsSpace(s[0]) {
      TrimStartSlice(s[1..]);
    }
  }

  /** `rstrip` cuts off an all-whitespace suffix and no more. */
  lemma {:induction false} TrimEndSlice(s: string)
    ensures var r := TrimEnd(s);
      && |r| <= |s| && r == s[..|r|]
      && AllSpace(s[|r|..])
      && (|r| == 0 || !IsSpace(r[|r| - 1]))
    decreases |s|
  {
    if |s| > 0 && IsSpace(s[|s| - 1]) {
      var p := s[..|s| - 1];
      TrimEndSlice(p);
      var r := TrimEnd(p);
      assert s[|r|..] == p[|r|..] + [s[|s| - 1]];
    }
  }

  /** What `str.strip()` leaves: a slice of the input with no whitespace at
      either end, cut out between an all-whitespace prefix and suffix. */
  lemma StripSlice(s: string)
    ensures var r := Strip(s);
      && (|r| == 0 || (!IsSpace(r[0]) && !IsSpace(r[|r| - 1])))
      && exists i :: StrippedAt(s, i, r)
  {
    var t := TrimStart(s);
    TrimStartSlice(s);
    TrimEndSlice(t);
    assert StrippedAt(s, |s| - |t|, Strip(s));
  }

  /** `r` is `s` with the all-whitespace prefix `s[..i]` and an all-whitespace
      suffix cut off. */
  ghost predicate StrippedAt(s: string, i: int, r: string) {
    && 0 <= i && i + |r| <= |s|
    && r == s[i..i + |r|]
    && AllSpace(s[..i])
    && AllSpace(s[i + |r|..])
  }

  /** `pat in s` for strings: `pat` occurs in `s` at some offset. */
  ghost predicate OccursAt(s: string, pat: string, i: int) {
    0 <= i && i + |pat| <= |s| && s[i..i + |pat|] == pat
  }

  /** Python's substring test `pat in s`, by scanning offsets left to right. */
  function Contains(s: string, pat: string): (b: bool)
    ensures b <==> exists i :: OccursAt(s, pat, i)
    decreases |s|
  {
    if |pat| > |s| then false
    else if s[..|pat|] == pat then
      assert OccursAt(s, pat, 0);
      true
    else
      var b := Contains(s[1..], pat);
      assert b ==> exists i :: OccursAt(s, pat, i) by {
        if b {
          var i :| OccursAt(s[1..], pat, i);
          assert s[1..][i..i + |pat|] == s[i + 1..i + 1 + |pat|];
          assert OccursAt(s, pat, i + 1);
        }
      }
      assert (exists i :: OccursAt(s, pat, i)) ==> b by {
        if exists i :: OccursAt(s, pat, i) {
          var i :| OccursAt(s, pat, i);
          assert i != 0;
          assert s[1..][i - 1..i - 1 + |pat|] == s[i..i + |pat|];
          assert OccursAt(s[1..], pat, i - 1);
        }
      }
      b
  }
}
