# SSA life-expectancy scraper, modelled in Dafny

This project models the core of `function_app.py`, an HTTP handler. The handler fills in the Social Security
Administration's life-expectancy form in a headless browser. It then finds the results table on the page
it gets back and turns that table into a record. The record is one `initial` life-expectancy point and
the sequence of `future` points.

The model covers:

- **The age-string normaliser** `parse_age_string` (modules `Text`, `AgeParser`, `AgeProperties`).
  - It deletes every ASCII letter and strips whitespace.
  - It tokenises the rest as `re.findall(r'(\d+\.?\d*)', …)` does: a left-to-right scanner that takes the greedy match at every digit.
  - It maps one token to its value, two tokens to `first + second / 12`, and any other count to no age.
- **The results-table locator** (module `Locator`). It picks the first table, in document order, whose
  text contains `"At Age"`. When no table does, it fails with `TableNotFound`.
- **The record extractor** (modules `Extractor`, `ExtractorProperties`).
  - It is the row loop of section 4 of the handler, written as a fold over the rows after the header.
  - The fold's partner is a declarative statement, `Extracted`. It filters the considered rows, requires every one of them to parse, and says that `[initial] + future` is their points in order. The error cases are also part of it.
- **The form plan** (modules `FormDriver`, `Decimal`).
  - The browser steps are a plan of abstract actions: select sex, select month as `str(month - 1)`, select day, select year, click submit.
  - `FormPlanSubmits` and `SubmittingPlanShape` work over a state machine of the form. They show that this plan, and every plan the form accepts, selects sex, month, day and year in that order and submits exactly once, last.
- **The orchestration** (module `Pipeline`). It fetches the page for the plan, locates the table and extracts the record. It returns a `Result` that stops at the first error.

Python's `float()` on the life-expectancy cells is the `number` parameter of `Pipeline.ScraperReaders`. The
extractor itself is stated over any pair of cell `Readers`. The browser session is the `fetch` parameter of
`Pipeline.Scrape`. It maps the plan of actions to the tables of the result page, or to nothing when a step fails.
Numbers are exact `real`s.

In three places the model follows the handler's code where a reader might expect otherwise:

- Only ASCII letters `[a-zA-Z]` are deleted, not every alphabetic character.
- A failed browser step is one `AutomationFailure`. The handler catches every exception alike, so no per-state tag is kept.
- Nothing checks that `atAge` increases along `future`, or that the life expectancies are finite and non-negative. The model promises neither.

## Model

| member | source | states |
|---|---|---|
| `Text.RemoveLettersCounts` | function_app.py:19 | deleting letters keeps every character that is not a letter exactly as often as it occurred |
| `Text.RemoveLettersInsert` | function_app.py:19 | a letter inserted anywhere in a text is gone after letter removal |
| `Text.StripSlice` | function_app.py:19 | `strip()` returns a contiguous piece of the text, cut only of whitespace at either end, with no whitespace left at either end |
| `Text.Contains` | function_app.py:109 | the substring test `pat in s` holds exactly when `pat` occurs in `s` at some offset |
| `AgeParser.TokenLength` | function_app.py:22 | the greedy match at a digit is a numeral (digits, at most one point) that the next character cannot extend |
| `AgeParser.TokenLengthOfNumeral` | function_app.py:22 | the greedy match at the start of `t + rest` is exactly `t` whenever `t` is a numeral that `rest` cannot extend |
| `AgeParser.Tokens` | function_app.py:22 | every token `findall` returns is a numeral |
| `AgeParser.NormalizeAge` | function_app.py:13-28 | a recognised age is never negative |
| `AgeProperties.TokensOfLayout` | function_app.py:22 | on a text whose numerals are separated by non-empty gaps without digits, none of which can extend the numeral before it, the tokens are exactly those numerals, in order |
| `AgeProperties.NoLeadingPointCleaned` | function_app.py:19 | a gap starts with a point after letter removal exactly when its first character that is not a letter is a point |
| `AgeProperties.NormalizeAgeOfLayout` | function_app.py:19-28 | with letters anywhere and numerals told apart by the cleaned gaps (points allowed, as in "70 yrs." or "62 and 4 mos."), one number gives its value, two give the first plus the second over 12, any other count gives no age |
| `AgeProperties.LetterIgnored` | function_app.py:19 | inserting an ASCII letter anywhere in an age text does not change its age |
| `AgeProperties.StripKeepsAge` | function_app.py:19 | stripping whitespace from an age text first does not change its age |
| `AgeProperties.NoDigitsNoAge` | function_app.py:22-28 | a text without digits has no age |
| `AgeProperties.NumeralValueOfNat` | function_app.py:27 | the decimal numeral of a whole number is read back as that number |
| `AgeProperties.NumeralValueOfParts` | function_app.py:22-27 | a numeral `w.f` is one token and is worth `w + f / 10^len(f)` |
| `Decimal.DecimalFraction` | function_app.py:25-27 | the fractional part of a numeral is the non-negative number that, times `10^k`, gives its digits' value |
| `AgeProperties.FootnotedAge` | function_app.py:26-27 | "70b" is the age 70 |
| `AgeProperties.CompoundAge` | function_app.py:24-25 | "62 and 4 months" is the age 62 + 4/12 |
| `AgeProperties.AbbreviatedAge` | function_app.py:19-25 | "62 and 4 mos." is the age 62 + 4/12: the point left after the letters go cannot extend the number |
| `AgeProperties.ThreeNumbersNoAge` | function_app.py:28 | "1 2 3" has no age |
| `AgeProperties.GreedyTokens` | function_app.py:22 | "1.2.3" splits into the tokens "1.2" and "3" |
| `Locator.LocateResultsTable` | function_app.py:106-114 | success names the first table whose text has "At Age"; failure is `TableNotFound` and happens exactly when no table has it |
| `Locator.LocateFindsFirstMarked` | function_app.py:106-114 | the locator returns index `i` if and only if table `i` is the first marked one |
| `Locator.SecondOfThree` | function_app.py:108-111 | of three tables where only the second is marked, the second is chosen |
| `ExtractorProperties.FoldSucceeds` | function_app.py:120-136 | when every considered row parses, the loop succeeds and appends their points in row order, the first to `initial` if it was empty |
| `ExtractorProperties.FoldFails` | function_app.py:122-131 | when some considered row does not parse, the loop fails with the first unparsable cell of the first such row |
| `ExtractorProperties.ExtractRecordsCorrect` | function_app.py:116-139 | the loop and the initial check give the declarative extraction: `[initial] + future` equals the points of the considered rows, or the first malformed cell, or `NoInitialData` when no row was considered |
| `ExtractorProperties.ExtractRecordsExactly` | function_app.py:116-139 | extraction yields `r` if and only if `r` is the declarative outcome |
| `ExtractorProperties.HeaderIgnored` | function_app.py:120 | whatever the first row holds, the result is the same |
| `ExtractorProperties.SkipUnconsideredRow` | function_app.py:122-126 | a row after the header that lacks three cells or whose age does not normalise changes nothing |
| `ExtractorProperties.MalformedNumberAborts` | function_app.py:127-131 | a considered row whose life-expectancy cell does not parse makes the whole extraction fail with `MalformedNumber` |
| `ExtractorProperties.ThreeValidRows` | function_app.py:132-136 | a header and three valid rows give the first row as `initial` and the other two as `future`, in order |
| `Decimal.IntToString` | function_app.py:62 | `str` of an integer is a canonical numeral (no leading zero, no "-0") that reads back as that integer |
| `Decimal.CanonicalUnique` | function_app.py:62 | two canonical numerals of the same value are the same text |
| `Decimal.IntToStringUnique` | function_app.py:62 | every canonical numeral that reads as `i` is `str(i)`: the month option is the only text of its kind naming that month |
| `FormDriver.NamesIdentifyControls` | function_app.py:73-87 | the four select controls have distinct names, so each selector reaches one control |
| `FormDriver.FormPlan` | function_app.py:62-93 | the plan ends with the submit click, and every earlier step selects in its control the profile's value for it: the sex, `str(month - 1)`, the day, the year |
| `FormDriver.FormPlanSubmits` | function_app.py:73-93 | the handler's plan takes the form from loaded to submitted |
| `FormDriver.ShapeFrom` | function_app.py:73-93 | from any unsubmitted state, a plan that reaches submission selects exactly the remaining controls in order and then submits once |
| `FormDriver.SubmittingPlanShape` | function_app.py:73-93 | every plan the form accepts up to submission is sex, month, day, year, then one submit, last |
| `FormDriver.MonthIsZeroBased` | function_app.py:62 | the plan selects the month, and every month option it picks is the canonical numeral of the profile's month minus one |
| `FormDriver.MarchIsOptionTwo` | function_app.py:62 | a March birth selects month option "2" |
| `Pipeline.AgeReaderIsNormalizer` | function_app.py:121-124 | stripping the age cell before normalising it gives the normaliser's own answer |
| `Pipeline.RunCorrect` | function_app.py:106-139 | locate-then-extract fails with `TableNotFound` exactly when no table is marked, and otherwise gives the declarative extraction of the first marked table |
| `Pipeline.ScrapeCorrect` | function_app.py:62-139 | the plan sent submits the form; a scrape fails with `AutomationFailure` exactly when the browser steps fail; otherwise it gives `TableNotFound` or the extraction of the first marked table |

## Left out

- Browser automation (function_app.py:66-98). Navigation, `wait_for_selector`, the 500 ms pause, the `networkidle` wait, the timeouts and `browser.close()` are network and browser I/O. They are the `fetch` parameter, and the session release is not modelled.
- HTML parsing with BeautifulSoup (function_app.py:101, 106, 118, 121). The page arrives already parsed, as tables of rows of `td` texts. Text of nested tables is not modelled.
- Python `float()`. It also accepts `inf`, `nan`, exponents and underscores, and its results are rounded. The life-expectancy cells are read by the `number` parameter, and ages are exact `real`s. No claim is made about bit-exact agreement with Python.
- Digits. `\d` in Python's `re` matches every Unicode decimal digit, but the model recognises ASCII `0`-`9` only.
- The HTTP boundary (function_app.py:11, 32-60, 141-155). This covers the app object, reading the JSON body, the 400, 200 and 500 responses, JSON encoding, logging and message texts. The month is taken as an integer, because `int()` at function_app.py:62 parses the request field outside the `try` block.
- `AgeParser.NormalizeAge`: its own contract states only that an age is non-negative. The count-by-count behaviour is stated by `AgeProperties.NormalizeAgeOfLayout` for texts whose numerals are separated, and by `AgeProperties.AgeOfTokens` for any text in terms of its tokens.
- `Pipeline.ScrapeCorrect`: it is stated for any cell readers. The handler's readers are `Pipeline.ScraperReaders(number)`, which `Pipeline.AgeReaderIsNormalizer` describes.
- Monotonicity of `atAge` along `future` is not proved, because the code never checks it.
