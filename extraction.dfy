/**
 * From OCR text to the floor-area result of `extractSquareFootage`: the
 * candidates the scanner keeps, the largest of them (`Math.max(...xs, 0)`),
 * and the three result records (success, not found, OCR failure).
 */
module Extraction {
  import opened Wrappers
  import opened Chars
  import opened SqftPattern
  import opened Scanner

  const SquareFeet: string := "sq ft"
  const NotFoundError: string := "Can't find sq ft, enter manually"
  const FailurePrefix: string := "OCR failed: "
  const PoorImageError: string := "Poor floorplan image quality"

  /** The record `extractSquareFootage` resolves to; `None` stands for `null` or an absent property. */
  datatype ExtractionResult = ExtractionResult(
    squareFootage: Option<real>,
    unit: Option<string>,
    rawText: string,
    error: Option<string>)

  /**
   * What the stages before the scan deliver: the recognised text, or the
   * message of the error thrown on the way (image not found, fetch error,
   * OCR failure).
   */
  datatype OcrOutcome = Recognized(text: string) | Failed(message: string)

  /** `Math.max(...xs, 0)` */
  function LargestArea(xs: seq<real>): (r: real)
    ensures r >= 0.0
    ensures forall i :: 0 <= i < |xs| ==> xs[i] <= r
    ensures r > 0.0 <==> exists i :: 0 <= i < |xs| && xs[i] > 0.0
    ensures r > 0.0 ==> r in xs
  {
    if xs == [] then 0.0
    else
      var rest := LargestArea(xs[..|xs| - 1]);
      if xs[|xs| - 1] > rest then xs[|xs| - 1] else rest
  }

  /** The invariant every result record keeps. */
  predicate WellFormed(r: ExtractionResult) {
    && (r.squareFootage.Some? <==> r.unit.Some?)
    && (r.squareFootage.Some? ==>
          r.squareFootage.value > 0.0 && r.unit == Some(SquareFeet) && r.error.None?)
    && (r.squareFootage.None? ==> r.error == Some(NotFoundError) || r.error == Some(PoorImageError))
  }

  predicate Succeeded(r: ExtractionResult) {
    r.squareFootage.Some?
  }

  /** The record built from the OCR text and the candidates found in it. */
  function ResultFor(text: string, candidates: seq<real>): (r: ExtractionResult)
    ensures WellFormed(r)
    ensures r.rawText == text
    ensures Succeeded(r) <==> exists i :: 0 <= i < |candidates| && candidates[i] > 0.0
    ensures Succeeded(r) ==>
              r.squareFootage.value in candidates
              && forall i :: 0 <= i < |candidates| ==> candidates[i] <= r.squareFootage.value
    ensures !Succeeded(r) ==> r.error == Some(NotFoundError)
  {
    var area := LargestArea(candidates);
    if area > 0.0 then ExtractionResult(Some(area), Some(SquareFeet), text, None)
    else ExtractionResult(None, None, text, Some(NotFoundError))
  }

  /** The record of the `catch` branch. */
  function FailureResult(message: string): (r: ExtractionResult)
    ensures WellFormed(r) && !Succeeded(r)
    ensures r.rawText == FailurePrefix + message && r.rawText[|FailurePrefix|..] == message
    ensures r.error == Some(PoorImageError)
  {
    ExtractionResult(None, None, FailurePrefix + message, Some(PoorImageError))
  }

  /**
   * The result of the extraction on recognised text, as a function of the
   * text: a well-formed record that keeps the text, and that reports "not
   * found" (never the image-quality error) when no area comes out.
   */
  function Extracted(text: string): (r: ExtractionResult)
    ensures WellFormed(r) && r.rawText == text
    ensures !Succeeded(r) ==> r == ExtractionResult(None, None, text, Some(NotFoundError))
  {
    ExecAdvances();
    ResultFor(text, Candidates(Exec, text))
  }

  /**
   * `extractSquareFootage` once the image has been located and read: a
   * cache hit is returned as it is; otherwise the OCR outcome is scanned
   * and the record built. `cacheWrite` is the record handed to
   * `cacheResult`, if any.
   */
  method ExtractSquareFootage(cached: Option<ExtractionResult>, outcome: OcrOutcome)
    returns (result: ExtractionResult, cacheWrite: Option<ExtractionResult>)
    ensures cached.Some? ==> result == cached.value && cacheWrite.None?
    ensures cached.None? && outcome.Recognized? ==> result == Extracted(outcome.text)
    ensures cached.None? && outcome.Failed? ==> result == FailureResult(outcome.message)
    ensures cached.None? ==> WellFormed(result)
    ensures cacheWrite.Some? <==> cached.None? && Succeeded(result)
    ensures cacheWrite.Some? ==> cacheWrite.value == result
  {
    if cached.Some? {
      return cached.value, None;
    }
    match outcome
    case Failed(message) =>
      result := FailureResult(message);
      cacheWrite := None;
    case Recognized(text) =>
      ExecAdvances();
      var sqftMatches := ExtractAllMatches(Exec, text);
      result := ResultFor(text, sqftMatches);
      cacheWrite := if Succeeded(result) then Some(result) else None;
  }

  /**
   * The extraction succeeds exactly when some match of the pattern has a
   * token that parses to a positive number, and the area is then the
   * largest such value.
   */
  lemma {:induction false} SuccessIffPositiveToken(text: string)
    ensures var ms := Matches(Exec, text);
            Succeeded(Extracted(text)) <==>
              exists i :: 0 <= i < |ms| && TokenValue(ms[i]).Some? && TokenValue(ms[i]).value > 0.0
  {
    ExecAdvances();
    var ms := Matches(Exec, text);
    var cs := Candidates(Exec, text);
    CandidatesAreParsedMatches(Exec, text);
    ParsedMembers(ms);
    if Succeeded(Extracted(text)) {
      var k :| 0 <= k < |cs| && cs[k] > 0.0;
      assert cs[k] in Parsed(ms);
      var i :| 0 <= i < |ms| && TokenValue(ms[i]) == Some(cs[k]);
    }
    if exists i :: 0 <= i < |ms| && TokenValue(ms[i]).Some? && TokenValue(ms[i]).value > 0.0 {
      var i :| 0 <= i < |ms| && TokenValue(ms[i]).Some? && TokenValue(ms[i]).value > 0.0;
      var v := TokenValue(ms[i]).value;
      assert v in cs;
      var k :| 0 <= k < |cs| && cs[k] == v;
    }
  }

  /** The area reported is the value of one of the matched tokens. */
  lemma AreaIsTokenValue(text: string)
    requires Succeeded(Extracted(text))
    ensures var ms := Matches(Exec, text);
            exists i :: 0 <= i < |ms| && TokenValue(ms[i]) == Extracted(text).squareFootage
  {
    ExecAdvances();
    CandidatesAreParsedMatches(Exec, text);
    ParsedMembers(Matches(Exec, text));
  }

  /** OCR text without a digit always ends in the not-found record. */
  lemma NoDigitNotFound(text: string)
    requires forall k :: 0 <= k < |text| ==> !IsDigit(text[k])
    ensures Extracted(text) == ExtractionResult(None, None, text, Some(NotFoundError))
  {
    NoDigitNoCandidates(text);
  }
}
