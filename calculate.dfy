/**
 * The record `handleCalculateRequest` sends back to the popup: the price
 * token, the area or the message that explains why there is none, and the
 * price per square foot when both a price and an area are there.
 */
module Calculate {
  import opened Wrappers
  import opened Numbers
  import opened Extraction
  import opened Price

  const PriceNotFound: string := "Not found"
  const UnableToExtract: string := "Unable to extract sq ft"
  const NoFloorplan: string := "No floorplan found"

  /** The `squareFootage` field: the area (shown with two decimals) or a message. */
  datatype AreaField = AreaFigure(sqft: real) | AreaMessage(message: string)

  /**
   * The `pricePerSqFt` field: `'N/A'`, or the price divided by the area,
   * where `None` is the `NaN` of a price token without digits.
   */
  datatype PricePerArea = NotAvailable | PerSqFt(amount: Option<real>)

  datatype CalculationResult = CalculationResult(price: string, squareFootage: AreaField, pricePerSqFt: PricePerArea)

  /** JavaScript truthiness of a string that may be `null`. */
  predicate TruthyText(s: Option<string>) {
    s.Some? && s.value != []
  }

  /** JavaScript truthiness of a number that may be `null` (`NaN` never occurs here). */
  predicate TruthyNumber(x: Option<real>) {
    x.Some? && x.value != 0.0
  }

  /** The area `handleCalculateRequest` keeps from the extraction, if any. */
  function AreaOf(floorplan: Option<ExtractionResult>): (a: Option<real>)
    ensures a.Some? <==> floorplan.Some? && TruthyNumber(floorplan.value.squareFootage)
    ensures a.Some? ==> a == floorplan.value.squareFootage && a.value != 0.0
  {
    if floorplan.Some? && TruthyNumber(floorplan.value.squareFootage) then floorplan.value.squareFootage else None
  }

  /** The message shown instead of an area. */
  function AreaMessageOf(floorplan: Option<ExtractionResult>): (m: string)
    requires AreaOf(floorplan).None?
    ensures m != []
    ensures floorplan.None? ==> m == NoFloorplan
    ensures floorplan.Some? && TruthyText(floorplan.value.error) ==> m == floorplan.value.error.value
    ensures floorplan.Some? && !TruthyText(floorplan.value.error) ==> m == UnableToExtract
  {
    if floorplan.None? then NoFloorplan
    else if TruthyText(floorplan.value.error) then floorplan.value.error.value
    else UnableToExtract
  }

  /**
   * The calculation result for the price token `extractPrice` found (if
   * any) and the extraction result for the floorplan link (`None` when the
   * page has no floorplan link).
   */
  function CalculationFor(price: Option<string>, floorplan: Option<ExtractionResult>): (r: CalculationResult)
    ensures r.price == if TruthyText(price) then price.value else PriceNotFound
    ensures r.squareFootage.AreaFigure? <==> AreaOf(floorplan).Some?
    ensures r.squareFootage.AreaFigure? ==> r.squareFootage.sqft == AreaOf(floorplan).value
    ensures r.squareFootage.AreaMessage? ==> r.squareFootage.message == AreaMessageOf(floorplan)
    ensures r.pricePerSqFt.PerSqFt? <==> TruthyText(price) && AreaOf(floorplan).Some?
    ensures r.pricePerSqFt.PerSqFt? ==>
              var amount := PriceAmount(price.value);
              r.pricePerSqFt.amount == if amount.Some? then Some(amount.value / AreaOf(floorplan).value) else None
  {
    var area := AreaOf(floorplan);
    var field := if area.Some? then AreaFigure(area.value) else AreaMessage(AreaMessageOf(floorplan));
    var perSqFt :=
      if TruthyText(price) && area.Some? then
        var amount := PriceAmount(price.value);
        PerSqFt(if amount.Some? then Some(amount.value / area.value) else None)
      else NotAvailable;
    CalculationResult(if TruthyText(price) then price.value else PriceNotFound, field, perSqFt)
  }

  /**
   * On a record the extraction itself produced, the area is shown exactly
   * when the extraction succeeded, and otherwise its own error is shown:
   * the fallback "Unable to extract sq ft" is never reached.
   */
  lemma WellFormedGating(price: Option<string>, result: ExtractionResult)
    requires WellFormed(result)
    ensures var r := CalculationFor(price, Some(result));
            && (r.squareFootage.AreaFigure? <==> Succeeded(result))
            && (r.squareFootage.AreaMessage? ==> r.squareFootage.message == result.error.value)
            && (r.squareFootage.AreaMessage? ==>
                  r.squareFootage.message in {NotFoundError, PoorImageError}
                  && r.squareFootage.message != UnableToExtract)
  {
  }

  /**
   * The price per square foot of a price token over a positive area: the
   * value of its digits over the area, or `NaN` for a token with no digit.
   * Unlike `PerSqFtOfAmount`, which holds for any price text, this reads the
   * amount off the token's digits.
   */
  lemma TokenPerSqFtValue(price: string, result: ExtractionResult)
    requires IsPriceToken(price) && WellFormed(result) && Succeeded(result)
    ensures var digits := StripPrice(price);
            AllDigits(digits)
            && CalculationFor(Some(price), Some(result)).pricePerSqFt
               == PerSqFt(if digits == [] then None
                          else Some(DigitsValue(digits) as real / result.squareFootage.value))
  {
    PriceAmountValue(price);
    var digits := StripPrice(price);
    var amount: Option<real> := if digits == [] then None else Some(DigitsValue(digits) as real);
    assert PriceAmount(price) == amount;
    PerSqFtOfAmount(price, result);
  }

  /**
   * A price and a successful extraction give the price's number over the
   * area. This holds for any non-empty price text; `TokenPerSqFtValue`
   * specialises it to a price token.
   */
  lemma PerSqFtOfAmount(price: string, result: ExtractionResult)
    requires price != [] && WellFormed(result) && Succeeded(result)
    ensures var amount := PriceAmount(price);
            CalculationFor(Some(price), Some(result)).pricePerSqFt
            == PerSqFt(if amount.Some? then Some(amount.value / result.squareFootage.value) else None)
  {
    assert AreaOf(Some(result)) == result.squareFootage;
  }

  /**
   * The same for the token `extractPrice` takes from a price element, which
   * is the price `handleCalculateRequest` receives: this ties the two
   * lemmas above to the price the extension actually extracts.
   */
  lemma PricePerSqFtValue(elementText: Option<string>, result: ExtractionResult)
    requires ExtractPrice(elementText).Some? && WellFormed(result) && Succeeded(result)
    ensures var price := ExtractPrice(elementText).value;
            var digits := StripPrice(price);
            AllDigits(digits)
            && CalculationFor(ExtractPrice(elementText), Some(result)).pricePerSqFt
               == PerSqFt(if digits == [] then None
                          else Some(DigitsValue(digits) as real / result.squareFootage.value))
  {
    var token := ExtractPrice(elementText);
    TokenPerSqFtValue(token.value, result);
  }
}
