/**
 * `_compute_deal_rating`: rate a listing's asking price against the mean
 * price of comparable sales, preferring sales of the same variant in the
 * same condition and falling back to all sales of the variant.
 */
module Deals {
  import opened Results
  import opened Records
  import opened Sequences
  import opened Stats

  datatype Rating = Great | Good | Fair | High | Unknown {
    /** The `label` tag shown with the rating. */
    function Label(): string {
      match this
      case Great => "Great deal"
      case Good => "Good price"
      case Fair => "Fair price"
      case High => "Above market"
      case Unknown => "No data"
    }

    /** The `css` severity tag shown with the rating. */
    function Css(): string {
      match this
      case Great => "success"
      case Good => "info"
      case Fair => "warning"
      case High => "danger"
      case Unknown => "secondary"
    }

    /** How good the deal is for a buyer; higher is better. */
    function Rank(): int {
      match this
      case Great => 3
      case Good => 2
      case Fair => 1
      case High => 0
      case Unknown => -1
    }
  }

  /**
   * The sale is of the variant and, when a condition is given, recorded in
   * the same condition. A NULL condition and "" are the same value here, so
   * a listing without a condition is compared with sales without one.
   */
  predicate Comparable(r: PriceRecord, variantId: int, condition: Option<string>) {
    r.variantId == variantId && (condition.None? || r.condition == condition.value)
  }

  function ComparableTo(variantId: int, condition: Option<string>): PriceRecord -> bool {
    (r: PriceRecord) => Comparable(r, variantId, condition)
  }

  /** The prices `func.avg` averages over. */
  function ComparablePrices(records: seq<PriceRecord>, variantId: int, condition: Option<string>): seq<int> {
    PricesOf(Filter(records, ComparableTo(variantId, condition)))
  }

  /** The database mean is truthy: some sale matched and their mean is not zero. */
  predicate AvgTruthy(prices: seq<int>) {
    prices != [] && Sum(prices) != 0
  }

  /** The sales whose mean the listing is compared with, or None for "no data". */
  function ComparisonPrices(l: Listing, records: seq<PriceRecord>): (r: Option<seq<int>>)
    ensures r.Some? ==> AvgTruthy(r.value)
    ensures AvgTruthy(ComparablePrices(records, l.variantId, Some(l.condition))) ==>
      r == Some(ComparablePrices(records, l.variantId, Some(l.condition)))
    ensures !AvgTruthy(ComparablePrices(records, l.variantId, Some(l.condition))) ==>
      && (r.Some? <==> AvgTruthy(ComparablePrices(records, l.variantId, None)))
      && (r.Some? ==> r.value == ComparablePrices(records, l.variantId, None))
  {
    var sameCondition := ComparablePrices(records, l.variantId, Some(l.condition));
    if AvgTruthy(sameCondition) then Some(sameCondition)
    else
      var sameVariant := ComparablePrices(records, l.variantId, None);
      if AvgTruthy(sameVariant) then Some(sameVariant) else None
  }

  /** The asking price's difference from the mean, as a percentage of the mean. */
  function DiffPct(price: int, avg: int): real
    requires avg != 0
  {
    (price - avg) as real / avg as real * 100.0
  }

  lemma DiffPctExact(price: int, avg: int)
    requires avg != 0
    ensures DiffPct(price, avg) == (100 * (price - avg)) as real / avg as real
  {
  }

  /**
   * The bands: below -15 % great, from -15 % up to -5 % good, from -5 % up
   * to and including +10 % fair, above +10 % high. Stated by
   * cross-multiplying, for either sign of the mean.
   */
  function RateAgainst(price: int, avg: int): (r: Rating)
    requires avg != 0
    ensures r != Unknown
    ensures avg > 0 ==> (r == Great <==> 20 * price < 17 * avg)
    ensures avg > 0 ==> (r == Good <==> 17 * avg <= 20 * price < 19 * avg)
    ensures avg > 0 ==> (r == Fair <==> 19 * avg <= 20 * price && 10 * price <= 11 * avg)
    ensures avg > 0 ==> (r == High <==> 10 * price > 11 * avg)
    ensures avg < 0 ==> (r == Great <==> 20 * price > 17 * avg)
    ensures avg < 0 ==> (r == Good <==> 17 * avg >= 20 * price > 19 * avg)
    ensures avg < 0 ==> (r == Fair <==> 19 * avg >= 20 * price && 10 * price >= 11 * avg)
    ensures avg < 0 ==> (r == High <==> 10 * price < 11 * avg)
  {
    var diffPct := DiffPct(price, avg);
    DiffPctExact(price, avg);
    QuotientCompare(100 * (price - avg), avg, -15);
    QuotientCompare(100 * (price - avg), avg, -5);
    QuotientCompare(100 * (price - avg), avg, 10);
    if diffPct < -15.0 then Great
    else if diffPct < -5.0 then Good
    else if diffPct <= 10.0 then Fair
    else High
  }

  /**
   * `_compute_deal_rating` as written: the truthiness test comes before
   * `int()`, so a mean strictly between -1 and 1 passes it, truncates to 0
   * and the percentage divides by zero.
   */
  function DealRatingAsWritten(l: Listing, records: seq<PriceRecord>): (r: Result<Rating>)
    ensures ComparisonPrices(l, records).None? ==> r == Ok(Unknown)
    ensures r.Err? ==> ComparisonPrices(l, records).Some?
  {
    match ComparisonPrices(l, records)
    case None => Ok(Unknown)
    case Some(prices) =>
      var avg := TruncatedMean(prices);
      if avg == 0 then Err(ZeroDivision) else Ok(RateAgainst(l.priceGbp, avg))
  }

  /** The deal rating with a zero truncated mean treated as "no data". */
  function DealRating(l: Listing, records: seq<PriceRecord>): (r: Rating)
    ensures DealRatingAsWritten(l, records).Ok? ==> r == DealRatingAsWritten(l, records).value
    ensures DealRatingAsWritten(l, records).Err? ==> r == Unknown
  {
    match ComparisonPrices(l, records)
    case None => Unknown
    case Some(prices) =>
      var avg := TruncatedMean(prices);
      if avg == 0 then Unknown else RateAgainst(l.priceGbp, avg)
  }

  lemma ComparableNonNegative(records: seq<PriceRecord>, variantId: int, condition: Option<string>)
    requires NonNegativePrices(records)
    ensures forall x :: x in ComparablePrices(records, variantId, condition) ==> x >= 0
  {
    var matched := Filter(records, ComparableTo(variantId, condition));
    forall x | x in PricesOf(matched) ensures x >= 0 {
      var i :| 0 <= i < |matched| && PricesOf(matched)[i] == x;
      assert matched[i] in multiset(matched);
    }
  }

  /** With non-negative prices the condition-matched sales never sum to more than all the variant's sales. */
  lemma {:induction false} ComparableSums(records: seq<PriceRecord>, variantId: int, condition: string)
    requires NonNegativePrices(records)
    ensures 0 <= Sum(ComparablePrices(records, variantId, Some(condition)))
    ensures Sum(ComparablePrices(records, variantId, Some(condition))) <= Sum(ComparablePrices(records, variantId, None))
  {
    if records != [] {
      var n := |records| - 1;
      var init, last := records[..n], records[n];
      assert records == init + [last];
      assert NonNegativePrices(init) by { assert forall r :: r in init ==> r in records; }
      ComparableSums(init, variantId, condition);
      var same, all := ComparableTo(variantId, Some(condition)), ComparableTo(variantId, None);
      FilterAppend(init, last, same);
      FilterAppend(init, last, all);
      var sameTail := if same(last) then [last] else [];
      var allTail := if all(last) then [last] else [];
      PricesOfConcat(Filter(init, same), sameTail);
      PricesOfConcat(Filter(init, all), allTail);
      SumConcat(PricesOf(Filter(init, same)), PricesOf(sameTail));
      SumConcat(PricesOf(Filter(init, all)), PricesOf(allTail));
      assert last in records;
    }
  }

  /**
   * The `unknown` ("No data") outcome: with non-negative prices, the rating as written
   * is `unknown` exactly when the variant's sales are missing or all priced 0.
   */
  lemma NoDataIffNoVariantSales(l: Listing, records: seq<PriceRecord>)
    requires NonNegativePrices(records)
    ensures DealRatingAsWritten(l, records) == Ok(Unknown)
        <==> Sum(ComparablePrices(records, l.variantId, None)) == 0
  {
    NoComparisonIffZeroSum(l, records);
    UnknownOnlyWithoutData(l, records);
  }

  lemma NoComparisonIffZeroSum(l: Listing, records: seq<PriceRecord>)
    requires NonNegativePrices(records)
    ensures ComparisonPrices(l, records).None? <==> Sum(ComparablePrices(records, l.variantId, None)) == 0
  {
    var same := ComparablePrices(records, l.variantId, Some(l.condition));
    var all := ComparablePrices(records, l.variantId, None);
    ComparableSums(records, l.variantId, l.condition);
    assert AvgTruthy(all) <==> Sum(all) != 0;
    assert Sum(all) == 0 ==> !AvgTruthy(same);
  }

  /** The code answers `unknown` exactly when it found no truthy mean to compare with. */
  lemma UnknownOnlyWithoutData(l: Listing, records: seq<PriceRecord>)
    ensures DealRatingAsWritten(l, records) == Ok(Unknown) <==> ComparisonPrices(l, records).None?
  {
    match ComparisonPrices(l, records)
    case None =>
    case Some(prices) =>
      var avg := TruncatedMean(prices);
      if avg != 0 {
        assert RateAgainst(l.priceGbp, avg) != Unknown;
      }
  }

  /** The discrepancy: the rating as written fails exactly when the compared mean lies strictly between -1 and 1. */
  lemma AsWrittenFailsIff(l: Listing, records: seq<PriceRecord>)
    ensures DealRatingAsWritten(l, records).Err?
        <==> ComparisonPrices(l, records).Some?
             && var prices := ComparisonPrices(l, records).value;
                -|prices| < Sum(prices) < |prices|
  {
    if ComparisonPrices(l, records).Some? {
      var prices := ComparisonPrices(l, records).value;
      TruncDivZero(Sum(prices), |prices|);
    }
  }

  /** A concrete failing input: two comparable sales priced 0 and 1 have mean 0.5, truncated to 0. */
  lemma AsWrittenDividesByZero(l: Listing, a: PriceRecord, b: PriceRecord)
    requires a.variantId == l.variantId && b.variantId == l.variantId
    requires a.condition == l.condition && b.condition == l.condition
    requires a.priceGbp == 0 && b.priceGbp == 1
    ensures DealRatingAsWritten(l, [a, b]) == Err(ZeroDivision)
    ensures DealRating(l, [a, b]) == Unknown
  {
    var same := ComparableTo(l.variantId, Some(l.condition));
    assert [a, b][..1] == [a];
    assert Filter([a], same) == [a];
    assert Filter([a, b], same) == [a, b];
    assert ComparablePrices([a, b], l.variantId, Some(l.condition)) == [0, 1];
    assert Sum([0, 1]) == 1;
  }

  /** Against a positive mean, a higher price never lands in a better band. */
  lemma RateAgainstMonotone(p1: int, p2: int, avg: int)
    requires avg > 0 && p1 <= p2
    ensures RateAgainst(p2, avg).Rank() <= RateAgainst(p1, avg).Rank()
  {
  }

  /** With a fixed set of sales, a higher asking price never gets a better rating. */
  lemma RatingMonotoneInPrice(l1: Listing, l2: Listing, records: seq<PriceRecord>)
    requires NonNegativePrices(records)
    requires l1.variantId == l2.variantId && l1.condition == l2.condition
    requires l1.priceGbp <= l2.priceGbp
    ensures DealRating(l1, records).Unknown? <==> DealRating(l2, records).Unknown?
    ensures DealRating(l2, records).Rank() <= DealRating(l1, records).Rank()
  {
    var cmp := ComparisonPrices(l1, records);
    assert cmp == ComparisonPrices(l2, records);
    if cmp.Some? {
      var prices := cmp.value;
      var avg := TruncatedMean(prices);
      assert forall x :: x in prices ==> x >= 0 by {
        ComparableNonNegative(records, l1.variantId, Some(l1.condition));
        ComparableNonNegative(records, l1.variantId, None);
      }
      assert avg >= 0 by {
        MeanWithinRange(prices);
        assert Min(prices) in prices;
      }
      if avg > 0 {
        RateAgainstMonotone(l1.priceGbp, l2.priceGbp, avg);
      }
    }
  }

  /** When the listing's condition has no usable sales, its condition plays no part in the rating. */
  lemma ConditionIgnoredWithoutData(l1: Listing, l2: Listing, records: seq<PriceRecord>)
    requires l1.variantId == l2.variantId && l1.priceGbp == l2.priceGbp
    requires !AvgTruthy(ComparablePrices(records, l1.variantId, Some(l1.condition)))
    requires !AvgTruthy(ComparablePrices(records, l2.variantId, Some(l2.condition)))
    ensures DealRating(l1, records) == DealRating(l2, records)
    ensures DealRatingAsWritten(l1, records) == DealRatingAsWritten(l2, records)
  {
  }

  /** When the listing's condition has usable sales, sales in other conditions or of other variants play no part. */
  lemma OnlySameConditionSalesCount(l: Listing, records: seq<PriceRecord>)
    requires AvgTruthy(ComparablePrices(records, l.variantId, Some(l.condition)))
    ensures DealRating(l, records) == DealRating(l, Filter(records, ComparableTo(l.variantId, Some(l.condition))))
  {
    var same := ComparableTo(l.variantId, Some(l.condition));
    FilterIdempotent(records, same);
  }

  /**
   * The boundaries belong to the milder band: exactly -15 % is good, exactly
   * -5 % is fair, exactly +10 % is fair. Against a mean of 25500, an asking
   * price of 21675 (-15 %) is good and 29325 (+15 %) is high.
   */
  lemma BandBoundaries(price: int, avg: int)
    requires avg > 0
    ensures 100 * (price - avg) == -15 * avg ==> RateAgainst(price, avg) == Good
    ensures 100 * (price - avg) == -5 * avg ==> RateAgainst(price, avg) == Fair
    ensures 100 * (price - avg) == 10 * avg ==> RateAgainst(price, avg) == Fair
    ensures RateAgainst(21675, 25500) == Good && RateAgainst(29325, 25500) == High
  {
  }
}
