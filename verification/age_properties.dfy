/** What `parse_age_string` promises about the age texts it meets: letters
    never matter, one number is that many years, two numbers are years plus
    months, and any other count is no age. */
module AgeProperties {
  import opened Wrappers
  import opened Text
  import opened Decimal
  import opened AgeParser

  /** Some character of `g` is not a letter, so it survives letter removal. */
  ghost predicate HasNonLetter(g: string) {
    exists k :: 0 <= k < |g| && !IsAsciiLetter(g[k])
  }

  /** An age text laid out as `gaps[0] nums[0] gaps[1] ... nums[n-1] gaps[n]`. */
  function Layout(gaps: seq<string>, nums: seq<string>): string
    requires |gaps| == |nums| + 1
    decreases |nums|
  {
    if |nums| == 0 then gaps[0] else gaps[0] + nums[0] + Layout(gaps[1..], nums[1..])
  }

  /** The numbers of a laid-out age text without letters are told apart: no
      gap has digits, every gap after a number starts with something that
      cannot extend that number, and every gap between two numbers is
      non-empty. */
  ghost predicate Separated(gaps: seq<string>, nums: seq<string>) {
    && |gaps| == |nums| + 1
    && (forall k :: 0 <= k < |nums| ==> IsNumeral(nums[k]))
    && (forall k :: 0 <= k < |gaps| ==> NoDigits(gaps[k]))
    && (forall k :: 1 <= k < |gaps| ==> Boundary(nums[k - 1], gaps[k]))
    && (forall k :: 1 <= k < |nums| ==> |gaps[k]| > 0)
  }

  /** Once its letters are deleted, `g` does not start with a point: its
      first character that is not a letter, if any, is not a point. */
  predicate NoLeadingPoint(g: string)
    decreases |g|
  {
    |g| == 0 || (if IsAsciiLetter(g[0]) then NoLeadingPoint(g[1..]) else g[0] != '.')
  }

  /** `NoLeadingPoint` is exactly the absence of a leading point after letter
      removal. */
  lemma {:induction false} NoLeadingPointCleaned(g: string)
    ensures NoLeadingPoint(g) <==> (|RemoveLetters(g)| == 0 || RemoveLetters(g)[0] != '.')
    decreases |g|
  {
    if |g| > 0 {
      assert g == [g[0]] + g[1..];
      RemoveLettersAppend([g[0]], g[1..]);
      if IsAsciiLetter(g[0]) {
        NoLeadingPointCleaned(g[1..]);
      }
    }
  }

  /** The numbers of a laid-out age text are told apart once its letters are
      deleted: no gap has digits, no gap after a number without a point
      starts with a point once its letters are deleted (it would extend the
      number), and every gap between two numbers holds something besides
      letters. */
  ghost predicate WellSeparated(gaps: seq<string>, nums: seq<string>) {
    && |gaps| == |nums| + 1
    && (forall k :: 0 <= k < |nums| ==> IsNumeral(nums[k]))
    && (forall k :: 0 <= k < |gaps| ==> NoDigits(gaps[k]))
    && (forall k :: 1 <= k < |gaps| ==> '.' in nums[k - 1] || NoLeadingPoint(gaps[k]))
    && (forall k :: 1 <= k < |nums| ==> HasNonLetter(gaps[k]))
  }

  /** The tokeniser recovers exactly the numbers of a well-separated layout. */
  lemma {:induction false} TokensOfLayout(gaps: seq<string>, nums: seq<string>)
    requires Separated(gaps, nums)
    ensures Tokens(Layout(gaps, nums)) == nums
    decreases |nums|
  {
    if |nums| == 0 {
      assert gaps[0] + [] == gaps[0];
      TokensSkipGap(gaps[0], []);
    } else {
      var rest := Layout(gaps[1..], nums[1..]);
      assert Boundary(nums[0], rest) by {
        if |nums| == 1 {
          assert rest == gaps[1];
        } else {
          assert rest == gaps[1] + nums[1] + Layout(gaps[2..], nums[2..]);
          assert |gaps[1]| > 0;
          assert rest[0] == gaps[1][0];
        }
      }
      assert Layout(gaps, nums) == gaps[0] + (nums[0] + rest);
      TokensSkipGap(gaps[0], nums[0] + rest);
      TokensTakeNumeral(nums[0], rest);
      assert Separated(gaps[1..], nums[1..]) by {
        assert forall k :: 1 <= k < |nums| - 1 ==> gaps[1..][k] == gaps[k + 1];
      }
      TokensOfLayout(gaps[1..], nums[1..]);
    }
  }

  /** Every gap with its letters deleted. */
  function CleanGaps(gaps: seq<string>): (cs: seq<string>)
    ensures |cs| == |gaps|
    ensures forall k :: 0 <= k < |gaps| ==> cs[k] == RemoveLetters(gaps[k])
  {
    seq(|gaps|, k requires 0 <= k < |gaps| => RemoveLetters(gaps[k]))
  }

  /** Deleting the letters of a layout deletes them gap by gap. */
  lemma {:induction false} RemoveLettersLayout(gaps: seq<string>, nums: seq<string>)
    requires |gaps| == |nums| + 1
    requires forall k :: 0 <= k < |nums| ==> IsNumeral(nums[k])
    ensures RemoveLetters(Layout(gaps, nums)) == Layout(CleanGaps(gaps), nums)
    decreases |nums|
  {
    if |nums| > 0 {
      var rest := Layout(gaps[1..], nums[1..]);
      RemoveLettersAppend(gaps[0] + nums[0], rest);
      RemoveLettersAppend(gaps[0], nums[0]);
      RemoveLettersIdentity(nums[0]);
      RemoveLettersLayout(gaps[1..], nums[1..]);
      assert CleanGaps(gaps)[1..] == CleanGaps(gaps[1..]);
    }
  }

  /** Letter removal turns a well-separated layout into a separated one: it
      keeps gaps free of digits and keeps what is not a letter. */
  lemma CleanGapsSeparated(gaps: seq<string>, nums: seq<string>)
    requires WellSeparated(gaps, nums)
    ensures Separated(CleanGaps(gaps), nums)
  {
    var cs := CleanGaps(gaps);
    forall k | 0 <= k < |gaps| ensures NoDigits(cs[k]) {
      forall j | 0 <= j < |cs[k]| ensures !IsDigit(cs[k][j]) {
        RemoveLettersFrom(gaps[k], j);
      }
    }
    forall k | 1 <= k < |gaps| ensures Boundary(nums[k - 1], cs[k]) {
      NoLeadingPointCleaned(gaps[k]);
    }
    forall k | 1 <= k < |nums| ensures |cs[k]| > 0 {
      var j :| 0 <= j < |gaps[k]| && !IsAsciiLetter(gaps[k][j]);
      RemoveLettersKeeps(gaps[k], j);
    }
  }

  /** The normaliser on a well-separated age text: one number gives that many
      years, two give the first plus the second in months, any other count
      gives no age. */
  lemma NormalizeAgeOfLayout(gaps: seq<string>, nums: seq<string>)
    requires WellSeparated(gaps, nums)
    ensures |nums| == 1 ==> NormalizeAge(Layout(gaps, nums)) == Some(NumeralValue(nums[0]))
    ensures |nums| == 2 ==>
      NormalizeAge(Layout(gaps, nums)) == Some(YearsAndMonths(NumeralValue(nums[0]), NumeralValue(nums[1])))
    ensures |nums| != 1 && |nums| != 2 ==> NormalizeAge(Layout(gaps, nums)) == None
  {
    var cleaned := RemoveLetters(Layout(gaps, nums));
    assert Tokens(Strip(cleaned)) == nums by {
      TokensOfStrip(cleaned);
      RemoveLettersLayout(gaps, nums);
      CleanGapsSeparated(gaps, nums);
      TokensOfLayout(CleanGaps(gaps), nums);
    }
    AgeOfTokens(Layout(gaps, nums), nums);
  }

  /** The normalised age depends only on the tokens of the cleaned text. */
  lemma AgeOfTokens(text: string, parts: seq<string>)
    requires Tokens(Strip(RemoveLetters(text))) == parts
    ensures |parts| == 1 ==> NormalizeAge(text) == Some(NumeralValue(parts[0]))
    ensures |parts| == 2 ==> NormalizeAge(text) == Some(YearsAndMonths(NumeralValue(parts[0]), NumeralValue(parts[1])))
    ensures |parts| != 1 && |parts| != 2 ==> NormalizeAge(text) == None
  {
  }

  /** Inserting a letter anywhere never changes the normalised age. */
  lemma LetterIgnored(a: string, b: string, c: char)
    requires IsAsciiLetter(c)
    ensures NormalizeAge(a + [c] + b) == NormalizeAge(a + b)
  {
    RemoveLettersInsert(a, b, c);
  }

  /** The spaces stripped from an age cell hold no numerals. */
  lemma TokensIgnoreStrip(t: string)
    ensures Tokens(RemoveLetters(Strip(t))) == Tokens(RemoveLetters(t))
  {
    var r := Strip(t);
    StripSlice(t);
    var i :| StrippedAt(t, i, r);
    var front, back := t[..i], t[i + |r|..];
    SpaceIsNotNumeric(front);
    SpaceIsNotNumeric(back);
    assert t == front + r + back;
    var cleaned := RemoveLetters(r);
    assert RemoveLetters(t) == front + (cleaned + back) by {
      RemoveLettersAppend(front + r, back);
      RemoveLettersAppend(front, r);
      RemoveLettersIdentity(front);
      RemoveLettersIdentity(back);
    }
    TokensSkipGap(front, cleaned + back);
    TokensDropTail(cleaned, back);
  }

  /** Stripping the age cell before normalising it, as the handler does,
      changes nothing. */
  lemma StripKeepsAge(t: string)
    ensures NormalizeAge(Strip(t)) == NormalizeAge(t)
  {
    TokensIgnoreStrip(t);
    TokensOfStrip(RemoveLetters(t));
    TokensOfStrip(RemoveLetters(Strip(t)));
  }

  /** Text without digits has no age. */
  lemma NoDigitsNoAge(s: string)
    requires NoDigits(s)
    ensures NormalizeAge(s) == None
  {
    NormalizeAgeOfLayout([s], []);
  }

  /** A whole number of years written out in decimal is read back exactly. */
  lemma {:induction false} NumeralValueOfNat(n: nat)
    ensures IsNumeral(NatToString(n))
    ensures NumeralValue(NatToString(n)) == n as real
  {
    var s := NatToString(n);
    assert s[..|s|] == s;
  }

  /** The digit run at the front of `w + rest` is `w` when `rest` does not
      start with a digit. */
  lemma {:induction false} DigitRunOfParts(w: string, rest: string)
    requires AllDigits(w)
    requires |rest| > 0 ==> !IsDigit(rest[0])
    ensures DigitRun(w + rest) == |w|
    decreases |w|
  {
    if |w| == 0 {
      assert w + rest == rest;
    } else {
      assert (w + rest)[0] == w[0];
      assert (w + rest)[1..] == w[1..] + rest;
      DigitRunOfParts(w[1..], rest);
    }
  }

  /** Digits, a point and digits form a numeral. */
  lemma PointedNumeral(w: string, f: string)
    requires |w| > 0 && AllDigits(w) && AllDigits(f)
    ensures IsNumeral(w + "." + f)
  {
    var t := w + "." + f;
    assert t[|w|] == '.';
    assert forall k :: 0 <= k < |w| ==> t[k] == w[k];
    assert forall k :: |w| < k < |t| ==> t[k] == f[k - |w| - 1];
  }

  /** The value of a pointed numeral whose leading digit run is its whole part. */
  lemma NumeralValueAt(w: string, f: string)
    requires AllDigits(w) && AllDigits(f)
    requires IsNumeral(w + "." + f) && DigitRun(w + "." + f) == |w|
    ensures NumeralValue(w + "." + f) == DigitsValue(w) as real + DecimalFraction(DigitsValue(f), |f|)
  {
    var t := w + "." + f;
    assert t[..|w|] == w;
    assert t[|w| + 1..] == f;
  }

  /** A numeral with a fractional part is its whole part plus its fraction
      digits over the matching power of ten: `float("62.5")` is 62.5. */
  lemma NumeralValueOfParts(w: string, f: string)
    requires |w| > 0 && AllDigits(w) && AllDigits(f)
    ensures IsNumeral(w + "." + f)
    ensures NumeralValue(w + "." + f) == DigitsValue(w) as real + DecimalFraction(DigitsValue(f), |f|)
  {
    PointedNumeral(w, f);
    assert w + ("." + f) == w + "." + f;
    DigitRunOfParts(w, "." + f);
    NumeralValueAt(w, f);
  }

  /** A footnoted age such as "70b" is the number before the footnote. */
  lemma FootnotedAge()
    ensures NormalizeAge("70b") == Some(70.0)
  {
    assert NatToString(70) == "70";
    NumeralValueOfNat(70);
    assert Layout(["", "b"], ["70"]) == "70b";
    NormalizeAgeOfLayout(["", "b"], ["70"]);
  }

  /** "62 and 4 months" is the numerals "62" and "4" in letter-and-space gaps. */
  lemma CompoundAgeLayout()
    ensures WellSeparated(["", " and ", " months"], ["62", "4"])
    ensures Layout(["", " and ", " months"], ["62", "4"]) == "62 and 4 months"
  {
    var gaps, nums := ["", " and ", " months"], ["62", "4"];
    assert IsNumeral(nums[0]) && IsNumeral(nums[1]);
    assert HasNonLetter(gaps[1]) by {
      assert !IsAsciiLetter(gaps[1][0]);
    }
    assert NoDigits(gaps[0]) && NoDigits(gaps[1]) && NoDigits(gaps[2]);
  }

  /** "62 and 4 months" is 62 years and 4 twelfths. */
  lemma CompoundAge()
    ensures NormalizeAge("62 and 4 months") == Some(62.0 + 4.0 / 12.0)
  {
    var gaps, nums := ["", " and ", " months"], ["62", "4"];
    assert NumeralValue("62") == 62.0 by {
      assert NatToString(62) == "62";
      NumeralValueOfNat(62);
    }
    assert NumeralValue("4") == 4.0 by {
      assert NatToString(4) == "4";
      NumeralValueOfNat(4);
    }
    CompoundAgeLayout();
    NormalizeAgeOfLayout(gaps, nums);
  }

  /** "62 and 4 mos." is the numerals "62" and "4" in gaps whose trailing
      point cannot extend the "4": a space comes first once letters are gone. */
  lemma AbbreviatedAgeLayout()
    ensures WellSeparated(["", " and ", " mos."], ["62", "4"])
    ensures Layout(["", " and ", " mos."], ["62", "4"]) == "62 and 4 mos."
  {
    var gaps, nums := ["", " and ", " mos."], ["62", "4"];
    assert IsNumeral(nums[0]) && IsNumeral(nums[1]);
    assert HasNonLetter(gaps[1]) by {
      assert !IsAsciiLetter(gaps[1][0]);
    }
    assert NoDigits(gaps[0]) && NoDigits(gaps[1]) && NoDigits(gaps[2]);
  }

  /** "62 and 4 mos." is 62 years and 4 twelfths: the abbreviation's point
      is not part of a number. */
  lemma AbbreviatedAge()
    ensures NormalizeAge("62 and 4 mos.") == Some(62.0 + 4.0 / 12.0)
  {
    var gaps, nums := ["", " and ", " mos."], ["62", "4"];
    assert NumeralValue("62") == 62.0 by {
      assert NatToString(62) == "62";
      NumeralValueOfNat(62);
    }
    assert NumeralValue("4") == 4.0 by {
      assert NatToString(4) == "4";
      NumeralValueOfNat(4);
    }
    AbbreviatedAgeLayout();
    NormalizeAgeOfLayout(gaps, nums);
  }

  /** Three numbers are an unrecognised format. */
  lemma ThreeNumbersNoAge()
    ensures NormalizeAge("1 2 3") == None
  {
    var gaps := ["", " ", " ", ""];
    assert Layout(gaps, ["1", "2", "3"]) == "1 2 3";
    assert !IsAsciiLetter(gaps[1][0]) && !IsAsciiLetter(gaps[2][0]);
    NormalizeAgeOfLayout(gaps, ["1", "2", "3"]);
  }

  /** Matching is leftmost and greedy: "1.2.3" splits as "1.2" and "3". */
  lemma GreedyTokens()
    ensures Tokens("1.2.3") == ["1.2", "3"]
  {
    assert IsNumeral("1.2");
    assert "1.2.3" == "1.2" + ".3";
    TokensTakeNumeral("1.2", ".3");
    assert ".3" == "." + "3";
    TokensSkipGap(".", "3");
    assert "3" == "3" + [];
    TokensTakeNumeral("3", []);
  }
}
