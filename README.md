# Rightmove sq ft calculator: floor-area extraction, verified in Dafny

The extension reads a property listing. It takes the asking price from the
page, runs OCR over the floorplan image, and reports the floor area in
square feet and the price per square foot. This project models the part of
`content.js` that turns text into those figures:

- **Scan loop.** `extractAllMatches` runs the global, case-insensitive
  square-footage pattern over the OCR text. For each match it takes the
  number token, strips its commas, parses it and keeps it when it is not
  `NaN`. It resumes at the end of the match and stops after 10001 matches
  at most.
- **Selector.** `Math.max(...sqftMatches, 0)` chooses the area.
- **Result records.** The outcome is a success (`unit: 'sq ft'`, and the
  record is cached), a not-found record, or the OCR-failure record of the
  `catch` branch.
- **Price token.** `extractPrice` trims the price element's text and returns
  the first match of `/£([\d,]+)/`, whole.
- **Gating.** `handleCalculateRequest` shows either the area or a message, and
  gives a price per square foot only when both a price and an area exist.

Modules:

- `Chars`: the regex character classes. `\d`, `\w` and `\b` are ASCII-only.
  `\s` is the ECMAScript set. Without the `u` flag, no non-ASCII character
  folds onto the ASCII letters of this pattern under `i`, so folding the ASCII
  capitals is exact here.
- `Numbers`: comma stripping, and `parseFloat` as an exact decimal.
- `SqftPattern`: the pattern as a deterministic matcher. At each choice point
  (an alternation or a greedy quantifier) it lists the candidate ends in the
  order a backtracking engine tries them, and the first end that completes
  the match wins.
- `Scanner`: the loop, as a `method` proved against a specification function.
- `Extraction`: the selector, the result records and the cache rule.
- `Price`: the price token, `trim`, and reading the price as a number.
- `Calculate`: the record `handleCalculateRequest` returns.
- `Scenarios`: worked instances.

The scan loop is written for any `exec` that moves forward: it finds matches
at or after `lastIndex`, inside the text, at least three characters long.
`SqftPattern.Exec` is the instance `content.js` uses.

Behaviour of the code that the model keeps:

- Any `\w+` word in front of a unit phrase is captured. It is kept only when
  `parseFloat` reads a number from it: `Total sq ft` gives nothing, while
  `1O sq ft` (an OCR'd letter O) is scanned into `[1]` (`Scenarios.MisreadZeroFigure`).
- A figure of four or more digits without commas, such as `1234 sq ft`, is not a
  numeral (`\d{1,3}` stops after three digits), but `\w+` captures it whole,
  so it is read as 1234 (`Scenarios.FourDigitFigure`).
- A `£` followed only by commas is a price token whose number is `NaN`.

## Model

| member | source | states |
|---|---|---|
| Scanner.ExtractAllMatches | content.js:82-108 | For any `exec` that advances, the loop terminates, returns exactly the values the scan specification `Candidates` gives, and returns at most 10001 of them. |
| Scanner.MatchesFrom | content.js:85-105 | At most `10001 - iterationCount` matches are processed before the counter check breaks the loop. |
| Scanner.ScanFrom | content.js:88-107 | The loop only appends to `matches`, at most one value per remaining turn. |
| Scanner.ScanFromParsed | content.js:88-107 | From any loop state, the final array is the current array followed by the parsed values of the matches still to come. |
| Scanner.CandidatesAreParsedMatches | content.js:88-98 | The returned array is the sequence, in match order, of the values of the matches whose comma-free token parses. |
| Scanner.ParsedMembers | content.js:89-95 | A value is returned if and only if some processed match's token, commas removed, parses to it. Tokens that do not parse are dropped without error. |
| Scanner.ParsedFromMatches | content.js:89-92 | Every returned value comes from one of the matches. |
| Scanner.MatchesInParsed | content.js:89-92 | The value of every match whose token parses is returned. |
| Scanner.MatchesChained | content.js:88-98 | Each processed match is the one `exec` finds from the end of the previous match, and the first one from `lastIndex`. A list shorter than the cap ends because `exec` found nothing more. |
| Scanner.MatchesOrdered | content.js:88-98 | Matches lie inside the text, left to right, without overlap, and each spans at least three characters, so there are at most a third as many matches as characters. |
| Scanner.ExecAdvances | content.js:78-98 | The square-footage pattern's `exec` moves forward, which is what the loop needs to terminate. |
| Scanner.CandidatesNonNegative | content.js:89-92 | Every candidate is at least 0. |
| Scanner.MatchesLeftmost | content.js:78-98 | Each match's token starts at the first position, from where the previous match ended, at which the pattern matches, and the match ends where the pattern's match does. |
| Scanner.MatchesExhaustive | content.js:88-106 | A scan that stops before the cap leaves no position after its last match at which the pattern matches. |
| Scanner.TokenValueStartsWithDigit | content.js:89-91 | A token captured at a word character parses only when it begins with a digit (the word `Infinity` aside, see Left out). |
| Scanner.PlacedTokenDigit | content.js:88-92 | For any match placed in the text (as `exec` places it), a token whose value is kept starts at a digit of the text. |
| Scanner.KeptTokenDigit | content.js:88-92 | For every match of the scan loop, a token whose value is kept starts at a digit of the text. |
| Scanner.NoDigitNoCandidates | content.js:78-108 | Text without a digit yields an empty array (the word `Infinity` aside, see Left out). |
| Scanner.TokenValue | content.js:89-90 | `parseFloat(match[1].replace(/,/g, ''))` is a number exactly when the comma-free token starts a decimal literal, and the number is never negative. |
| Scanner.NumeralTokenValue | content.js:89-90 | For a numeral token split at its full stop, the part before it, commas removed, is a non-empty run of digits. The token's value is that whole number when there is no full stop, and otherwise that number plus the digits after the full stop as a decimal fraction. |
| Scanner.Kept | content.js:91-96 | One turn of the loop keeps the array as it was and appends at most one value. It appends exactly when the token parses, and what it appends is the token's value. |
| Scanner.ExecAtEnd | content.js:78-88 | `exec` from the end of the text finds nothing. |
| Scanner.ExecWholeText | content.js:78-88 | When the pattern matches from the first position to the end of the text, `exec` from 0 reports that whole-text match, with its number token as `match[1]`. |
| Scanner.WholeTextMatch | content.js:82-108 | Such a text is scanned into the value of that one token, if it parses, and nothing else. |
| Scanner.WholeTextValue | content.js:82-108 | A text that is one whole match whose token reads as `v` is scanned into `[v]`. |
| SqftPattern.Exec | content.js:78-88 | A match found lies at or after `lastIndex` and inside the text, and is at least three characters long. Past the end of the text nothing is found. |
| SqftPattern.ExecPlaced | content.js:78-88 | `match[0]` and `match[1]` are the text at their positions, and the token is non-empty, starts with a word character, and is followed, after white space, by `sq` or `ft` (ignoring case). |
| SqftPattern.ExecHit | content.js:78-88 | The match `exec` reports is built from a hit at or after `lastIndex` at which the pattern matches, and its first group ends where that hit's token ends. |
| SqftPattern.HitUnitFollows | content.js:78 | `sq` or `ft` follows, after white space, the token of every hit. |
| SqftPattern.ExecIsLeftmost | content.js:78-88 | `exec` finds nothing exactly when no position from `lastIndex` starts a match. Otherwise it reports the first such position and that match's end. |
| SqftPattern.MatchOf | content.js:78-98 | `match[0]` and `match[1]` are the text at their positions, and the token is where the hit puts it. `match.index` lies before the token exactly when the token is preceded by a `(` at or after `lastIndex`, and then it is on that parenthesis. The end of the match, where the loop resumes, is the hit's end either way. |
| SqftPattern.FirstHit | content.js:78-88 | The hit reported is a match of the pattern starting at or after the search position. |
| SqftPattern.MatchAt | content.js:78 | A match's token starts at a word start. It is a numeral or a run of word characters, and a unit phrase (`sq…` or `ft…`) follows it after white space. Completeness is in `NumeralUnitFound` and `WordUnitFound`. |
| SqftPattern.NumeralUnitFound | content.js:78 | A numeral at a word start, followed by white space, any reading of the unit phrase and a closing that succeeds, is matched there through the numeral alternative, with the whole greedy numeral as its token. |
| SqftPattern.WordUnitFound | content.js:78 | A run of word characters at a word start, followed by white space, any reading of the unit phrase and a closing that succeeds, is matched there. Unless the numeral alternative matches first (it can only when the run starts with a digit), the token reaches at least to the end of that run, so `1234 sq ft` is read as `1234` (`NumeralBeforeDigit`, `Scenarios.FourDigitFigure`). |
| SqftPattern.TailFound | content.js:78 | White space, any reading of the unit phrase and a closing that succeeds after it make the tail of the pattern succeed. |
| SqftPattern.SpaceBeforeUnit | content.js:78 | `\s*` before a unit phrase is taken whole, because the phrase starts with a letter. |
| SqftPattern.NumeralSqFtMatch | content.js:78 | A numeral at a word start, then white space, `sq`, white space, `ft` (with no `uare` or `.` after `sq`) and a word boundary: the match is that numeral, and it ends just after `ft`. |
| SqftPattern.SqSpaceFtTail | content.js:78 | In that layout the tail ends just after `ft`. |
| SqftPattern.SqSpaceFtFirst | content.js:78 | In that layout the first unit end tried is just after `ft`. |
| SqftPattern.TailAtFirstEnd | content.js:78 | When the closing succeeds after the first unit end tried, the tail ends there. |
| SqftPattern.NumeralFirstEnd | content.js:78 | A numeral at a word start whose closing succeeds after the first unit end tried is the match. Its token is the whole greedy numeral, and the match ends where that closing ends. |
| SqftPattern.NumeralHitFirst | content.js:78 | At a word start with a digit the numeral alternative is tried first: a numeral whose tail succeeds is the match. |
| SqftPattern.WordHitSecond | content.js:78 | At a word start where the numeral alternative does not match, the match is the one the `\w+` alternative finds. |
| SqftPattern.NumeralBeforeDigit | content.js:78 | A numeral directly followed by a digit (`123` of `1234`, where `\d{1,3}` stops at three) has no unit after it, so the numeral alternative fails there. |
| SqftPattern.NumeralEnd | content.js:78 | The greedy end of `\d{1,3}(?:,\d{3})*(?:\.\d+)?` lies past its start. The text up to it is in that language and holds only digits, commas and full stops. |
| SqftPattern.NumeralLongest | content.js:78 | `NumeralEnd` is the longest reading: no longer stretch from the same start is in the numeral language. |
| SqftPattern.GroupsLongest | content.js:78 | The greedy comma groups and fraction reach at least as far as any reading of `(?:,\d{3})*(?:\.\d+)?` from the same position. |
| SqftPattern.LeadEnd | content.js:78 | `\d{1,3}` takes one to three digits, and stops short of three only where the digits end. |
| SqftPattern.NumeralParts | content.js:78 | Split at its full stop, a numeral is a leading digit followed by digits and commas, then, if there is a full stop, one or more digits. |
| SqftPattern.GroupsThenFraction | content.js:78 | What the greedy comma groups and fraction consume is in the language of `(?:,\d{3})*(?:\.\d+)?`. |
| SqftPattern.NumeralHit | content.js:78 | A match through the numeral alternative has a numeral token and the tail of the pattern after it. |
| SqftPattern.WordHit | content.js:78 | A match through `\w+` ends its token inside the run of word characters, and the rest of the pattern succeeds right after the token. No longer token in the run is accepted by the tail, and when it finds nothing the tail accepts no end in the run. |
| SqftPattern.UnitEnds | content.js:78 | Every unit-phrase end lies at least two characters on, and unit ends exist only where `sq` or `ft` starts, ignoring case. |
| SqftPattern.UnitEndsExact | content.js:78 | The ends the matcher tries for the unit phrase are exactly the ends at which the unit alternation can stop, read off the pattern directly (`UnitPhraseAt`). |
| SqftPattern.UnitPhraseListed | content.js:78 | Every way the unit alternation can match is among the ends tried. |
| SqftPattern.UnitEndsRead | content.js:78 | Every end tried is a way the unit alternation can match. |
| SqftPattern.TailEnd | content.js:78 | `\s*`, the unit phrase and the closing succeed only where a unit follows the token, and end at least two characters after it. |
| SqftPattern.FirstClose | content.js:78 | The match ends at the first candidate unit end at which `(?:\)|\b)` succeeds, and fails exactly when it succeeds at none. |
| SqftPattern.Close | content.js:78 | `(?:\)|\b)` succeeds exactly at a `)`, which it consumes, or at a word boundary, which it does not. |
| Numbers.RemoveCommas | content.js:89 | `replace(/,/g, '')` keeps exactly the characters that are not commas and never lengthens the token. A token without commas is unchanged. |
| Numbers.RemoveCommasFilter | content.js:89 | Removing commas works character by character: it distributes over concatenation, drops a lone comma and keeps any other character, so the kept characters stay in order with their repetitions. |
| Numbers.ParseNumber | content.js:90-91 | `parseFloat` gives a number exactly when the token starts a decimal literal (a digit, or `.` and a digit); the number is never negative. Its value on digits, on digits with a fraction, and on digits with an exponent after `e` or `E` is in `ParseDigits`, `ParseDecimal`, `ParseDigitsThen`, `ParseDigitsMark` and `ParseExponent`. |
| Numbers.ParseDigits | content.js:90 | A run of digits parses to its decimal value. |
| Numbers.ParseDigitsThen | content.js:90 | Digits followed by anything that cannot continue a literal (not a digit, `.`, `e` or `E`) parse to the value of the digits, as `parseFloat("1O")` gives 1. |
| Numbers.ParseDigitsMark | content.js:90 | Digits, then `e` or `E` with no digit after it (not even after one sign), parse to the value of the digits: the mark is not part of the literal, as `parseFloat("2e")` gives 2. |
| Numbers.ParseExponent | content.js:90 | Digits, `e` or `E` and digits, then something that is not a digit, parse to the mantissa times ten to the exponent, as `parseFloat("1e3")` and `parseFloat("1E3")` give 1000. |
| Numbers.ExponentPower | content.js:90 | A mark `e` or `E` followed directly by the digits `n`, and then by no digit, scales by ten to the power `n`. |
| Numbers.WholeThenScaled | content.js:90 | Digits followed by neither a digit nor a full stop are the mantissa, which the exponent part then scales. |
| Numbers.ParseDecimal | content.js:90 | Digits, `.` and digits parse to the exact decimal fraction. |
| Numbers.ExponentScale | content.js:90 | The exponent part of a `\w+` token such as `1e3` scales by a positive factor. The factor is 1 when there is no `e` or `E` at that position, and also when the mark is not followed by a digit, directly or after one sign. The exact power of ten after `e` or `E` is in `ExponentPower` and `ParseExponent`. |
| Extraction.LargestArea | content.js:114 | `Math.max(...xs, 0)` is at least 0 and at least every candidate. It is positive exactly when some candidate is, and is then one of the candidates. So it is the largest candidate when one is positive, and 0 for an empty list. |
| Extraction.ResultFor | content.js:114-137 | Success exactly when a candidate is positive. A success carries the largest candidate, `unit 'sq ft'` and no error. Otherwise both fields are null and the error is "Can't find sq ft, enter manually". `rawText` is the OCR text unchanged on both paths. |
| Extraction.FailureResult | content.js:138-145 | The `catch` record has null area and unit, `rawText` is `'OCR failed: '` followed by the message, and the error is "Poor floorplan image quality". |
| Extraction.ExtractSquareFootage | content.js:33-147 | A cache hit is returned unchanged and nothing is cached. Otherwise the result is the not-found/success record for the scanned text, or the failure record. It satisfies the result invariant, and it is handed to the cache exactly when it is a success. |
| Extraction.SuccessIffPositiveToken | content.js:88-117 | Extraction succeeds exactly when some match's token parses to a positive number. |
| Extraction.AreaIsTokenValue | content.js:111-120 | The area reported is the value of one of the matched tokens. |
| Extraction.NoDigitNotFound | content.js:111-133 | OCR text without a digit always yields the not-found record (the word `Infinity` aside, see Left out). |
| Extraction.Extracted | content.js:111-137 | The record for recognised text is well formed and keeps the text as `rawText`. When no area comes out it is the not-found record, never the image-quality error. |
| Price.FirstPriceAt | content.js:13 | Reports the leftmost `£` followed by a digit or comma at or after the search position, or that there is none. |
| Price.MatchPrice | content.js:13-15 | There is a match exactly when some `£` is followed by a digit or comma. The match is `£` followed by one or more digits or commas. |
| Price.MatchPriceLeftmostLongest | content.js:13-15 | The match is the leftmost `£[\d,]` start, extended over the whole run of digits and commas. |
| Price.Trim | content.js:12 | `trim()` yields a stretch of the text with only white space cut from either end, and neither end of the result is white space. |
| Price.TrimKeepsPrice | content.js:12-15 | Trimming never changes the price token that is found. |
| Price.PriceInside | content.js:12-13 | A price can only begin inside the trimmed stretch, and begins there exactly where it begins in the untrimmed text. |
| Price.SlicedPrice | content.js:12-15 | Cutting white space from both ends keeps a price match that exists. |
| Price.ExtractPrice | content.js:7-26 | `extractPrice` returns null without a price element. With one, it returns the first match of the pattern on the element's text, as if untrimmed; that match starts with `£` followed by one or more digits or commas. |
| Price.StripPrice | content.js:220 | `replace(/[£,]/g, '')` keeps exactly the characters other than `£` and `,`. A string with neither is unchanged. |
| Price.StripPriceFilter | content.js:220 | The removal works character by character: it distributes over concatenation, drops a lone `£` or `,` and keeps any other character, so order and repetitions are kept. |
| Price.PriceAmount | content.js:220 | `parseFloat` of the stripped price is a number exactly when the stripped text starts a decimal literal, and is never negative. |
| Price.StripPriceDigits | content.js:220 | Removing `£` and `,` from a price token leaves only digits. |
| Price.PriceAmountValue | content.js:220 | `parseFloat` of the stripped token is the value of its digits. It is `NaN` exactly when the token has no digit (`£,`). |
| Calculate.AreaOf | content.js:204-208 | An area is kept exactly when there is a floorplan link and the extraction's `squareFootage` is truthy, and it is that value. |
| Calculate.AreaMessageOf | content.js:209-215 | Without an area, the message is never empty. It falls back in order: "No floorplan found" when there is no link, else the record's error when truthy, else "Unable to extract sq ft". |
| Calculate.CalculationFor | content.js:217-221 | The price reads "Not found" unless a price is truthy. The area field shows the area exactly when one was kept, and the message otherwise. `pricePerSqFt` is 'N/A' unless both a price and an area are present, and is then the price's number over the area. |
| Calculate.WellFormedGating | content.js:204-215 | For a record the extraction produced, the area is shown exactly on success. Otherwise the record's own error is shown, so the "Unable to extract sq ft" fallback is never reached. |
| Calculate.PricePerSqFtValue | content.js:217-220 | For an extracted price and a successful extraction, the price per square foot is the price's digit value over the area, or `NaN` when the token has no digit. |
| Calculate.PerSqFtOfAmount | content.js:217-220 | With a price and a successful extraction, `pricePerSqFt` is `parseFloat` of the stripped price over the area, or `NaN` when that does not parse. |
| Calculate.TokenPerSqFtValue | content.js:217-220 | For any price token and a successful extraction, `pricePerSqFt` is the value of the token's digits over the area, or `NaN` when the token has no digit. |
| Scenarios.GroupedToken | content.js:89-92 | The token `1,200` of `1,200 sq ft` reads as 1200. |
| Scenarios.GroupedTokenAt | content.js:89-90 | The token as the scan slices it from the start of `1,200 sq ft` reads as 1200 (the form `WholeTextValue` takes). |
| Scenarios.GroupedNumeral | content.js:78 | The number token of `1,200 sq ft` takes in the comma group. |
| Scenarios.GroupedFigureMatch | content.js:78 | The pattern matches the whole of `1,200 sq ft` from its first position. |
| Scenarios.GroupedFigure | content.js:78-108 | `extractAllMatches` on `1,200 sq ft` returns `[1200]`. |
| Scenarios.PlainNumeral | content.js:78 | The number token of `450 sq ft` is its three digits. |
| Scenarios.PlainFigureMatch | content.js:78 | The pattern matches the whole of `450 sq ft` from its first position. |
| Scenarios.PlainToken | content.js:89-90 | The token `450` reads as 450. |
| Scenarios.PlainTokenAt | content.js:89-90 | The token as the scan slices it from the start of `450 sq ft` reads as 450 (the form `WholeTextValue` takes). |
| Scenarios.PlainFigure | content.js:78-108 | `extractAllMatches` on `450 sq ft` returns `[450]`. |
| Scenarios.MisreadZeroToken | content.js:89-90 | The token `1O` (a letter O for a zero) reads as 1. |
| Scenarios.MisreadZeroNumeral | content.js:78 | In `1O sq ft` the numeral alternative fails: its numeral `1` is followed by `O`, not by a unit. |
| Scenarios.MisreadZeroWord | content.js:78 | In `1O sq ft` the `\w+` alternative takes `1O`, and the match runs to the end of the text. |
| Scenarios.MisreadZeroMatch | content.js:78 | The pattern matches the whole of `1O sq ft` from its first position, with `1O` as its token. |
| Scenarios.MisreadZeroTokenAt | content.js:89-90 | The token as the scan slices it from the start of `1O sq ft` reads as 1 (the form `WholeTextValue` takes). |
| Scenarios.MisreadZeroFigure | content.js:78-108 | `extractAllMatches` on `1O sq ft` returns `[1]`. |
| Scenarios.FourDigitNumeral | content.js:78 | In `1234 sq ft` the numeral alternative fails: `\d{1,3}` stops at `123`, and a digit follows it. |
| Scenarios.FourDigitWord | content.js:78 | In `1234 sq ft` the `\w+` alternative takes `1234`, and the match runs to the end of the text. |
| Scenarios.FourDigitMatch | content.js:78 | The pattern matches the whole of `1234 sq ft` from its first position, with `1234` as its token. |
| Scenarios.FourDigitTokenAt | content.js:89-90 | The token as the scan slices it from the start of `1234 sq ft` reads as 1234. |
| Scenarios.FourDigitFigure | content.js:78-108 | `extractAllMatches` on `1234 sq ft`, a figure of four digits without a comma, returns `[1234]`. |
| Scenarios.ExponentToken | content.js:89-90 | The word token `1e3` reads as 1000. |
| Scenarios.WordToken | content.js:89-95 | The word `Total` of `Total sq ft` does not parse and is dropped. |
| Scenarios.SampleMatchPrice | content.js:12-15 | The price element text `Guide £325,000 ` yields the token `£325,000`. |

## Left out

- The page and browser I/O are not modelled:
  - `document.querySelector`, `findFloorplanUrl`, navigation to the floorplan page, and the polling in `retrySelector`;
  - the `fetchImage` message to the background script;
  - the Tesseract worker.

  The model takes their outcomes as inputs. The price element's text is an `Option<string>`. The floorplan link and the extraction result are an `Option<ExtractionResult>`. The OCR stage gives either the recognised text or the message of the error it threw.
- The `chrome.storage` cache is not modelled: `getCachedResult`, `cacheResult`, the 24-hour `Date.now()` expiry and `CACHE_KEY`. A cache hit is an input to `ExtractSquareFootage`, and the write is its `cacheWrite` output.
- `toFixed(2)` and the `' sq ft'` suffix in the displayed strings are not modelled. Nor is the `£` prefix of the price per square foot. The model keeps the numbers, and the division is exact on `real`.
- `console` logging and `logTimeTaken` are not modelled.
- The `try`/`catch` around `handleCalculateRequest` only logs and rethrows, and nothing in the modelled part throws. The `await` ordering of its two calls is not modelled.
- `popup.js` and `background.js` are UI and fetch glue, outside this model.
- ParseNumber: `parseFloat` is modelled as an exact decimal. These are not modelled:
  - IEEE-754 rounding;
  - overflow to `Infinity` (for a token such as `1e999`);
  - a literal `Infinity` prefix;
  - signs and leading white space, which no token of the pattern can contain.
- SqftPattern.Exec: the `RegExp` object's own state is not modelled; the loop's `lastIndex` variable stands for it. The matcher is exact for this one pattern; it is not a general regex engine.
- This revision of `content.js` has no metric units, no spelled-out number words, no square-metre conversion and no unit-system selection, and the model adds none.
