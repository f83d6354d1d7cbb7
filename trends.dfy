/**
 * `_price_trend`: sort a variant's sales by date, split them at `n // 2`,
 * and compare the mean price of the late part with that of the early part.
 */
module Trends {
  import opened Results
  import opened Records
  import opened Sequences
  import opened Stats
  import opened Orders

  datatype Trend = Rising | Stable | Falling

  /** The percentage change between the two means, as the source computes it. */
  function PctChange(earlySum: int, earlyCount: int, lateSum: int, lateCount: int): real
    requires earlyCount > 0 && lateCount > 0 && earlySum != 0
  {
    var earlyAvg := earlySum as real / earlyCount as real;
    var lateAvg := lateSum as real / lateCount as real;
    (lateAvg - earlyAvg) / earlyAvg * 100.0
  }

  /** The percentage change of two means, written as one fraction of the sums and counts. */
  lemma PctChangeExact(earlySum: int, earlyCount: int, lateSum: int, lateCount: int)
    requires earlyCount > 0 && lateCount > 0 && earlySum != 0
    ensures PctChange(earlySum, earlyCount, lateSum, lateCount)
         == (100 * (lateSum * earlyCount - earlySum * lateCount)) as real / (earlySum * lateCount) as real
  {
    var E, e, L, l := earlySum as real, earlyCount as real, lateSum as real, lateCount as real;
    var ea, la := E / e, L / l;
    assert la - ea == (L * e - E * l) / (e * l);
    assert (la - ea) / ea == (L * e - E * l) / (E * l);
  }

  /**
   * Classifies the change with strict ±5 % bands: `rising` above +5,
   * `falling` below -5, `stable` otherwise. A zero early mean is the
   * source's division by zero.
   */
  function Classify(earlySum: int, earlyCount: int, lateSum: int, lateCount: int): (r: Result<Trend>)
    requires earlyCount > 0 && lateCount > 0
    ensures r.Err? <==> earlySum == 0
    ensures earlySum > 0 ==> (r == Ok(Rising) <==> 20 * lateSum * earlyCount > 21 * earlySum * lateCount)
    ensures earlySum > 0 ==> (r == Ok(Falling) <==> 20 * lateSum * earlyCount < 19 * earlySum * lateCount)
    ensures earlySum < 0 ==> (r == Ok(Rising) <==> 20 * lateSum * earlyCount < 21 * earlySum * lateCount)
    ensures earlySum < 0 ==> (r == Ok(Falling) <==> 20 * lateSum * earlyCount > 19 * earlySum * lateCount)
  {
    if earlySum == 0 then Err(ZeroDivision)
    else
      var pct := PctChange(earlySum, earlyCount, lateSum, lateCount);
      var diff, base := 100 * (lateSum * earlyCount - earlySum * lateCount), earlySum * lateCount;
      PctChangeExact(earlySum, earlyCount, lateSum, lateCount);
      QuotientCompare(diff, base, 5);
      QuotientCompare(diff, base, -5);
      if pct > 5.0 then Ok(Rising)
      else if pct < -5.0 then Ok(Falling)
      else Ok(Stable)
  }

  /** The sales in date order; sales on the same date keep their input order. */
  function ByDate(records: seq<PriceRecord>): seq<PriceRecord> {
    SortBy(records, SoldNoLater)
  }

  /** The earliest half of the sales, rounded down. */
  function EarlyHalf(records: seq<PriceRecord>): seq<PriceRecord> {
    var sorted := ByDate(records);
    sorted[..|sorted| / 2]
  }

  /** The remaining, later sales: half rounded up. */
  function LateHalf(records: seq<PriceRecord>): seq<PriceRecord> {
    var sorted := ByDate(records);
    sorted[|sorted| / 2..]
  }

  /** The trend of a variant's sales: stable for fewer than two, else the late mean against the early one. */
  function PriceTrend(records: seq<PriceRecord>): (r: Result<Trend>)
    ensures |records| < 2 ==> r == Ok(Stable)
    ensures r.Err? <==> |records| >= 2 && Sum(PricesOf(EarlyHalf(records))) == 0
  {
    if |records| < 2 then Ok(Stable)
    else
      var early, late := PricesOf(EarlyHalf(records)), PricesOf(LateHalf(records));
      Classify(Sum(early), |early|, Sum(late), |late|)
  }

  lemma ByDateSorted(records: seq<PriceRecord>)
    ensures SortedBy(ByDate(records), SoldNoLater)
    ensures multiset(ByDate(records)) == multiset(records)
  {
    SoldNoLaterTotal();
    SortBySorted(records, SoldNoLater);
  }

  /**
   * The split: the early part holds the `n // 2` earliest sales, the late
   * part the other `n - n // 2` (so the late part gets the extra sale when
   * `n` is odd), no early sale is dated after a late one, and together they
   * are exactly the input.
   */
  lemma TrendSplit(records: seq<PriceRecord>)
    ensures |EarlyHalf(records)| == |records| / 2
    ensures |LateHalf(records)| == |records| - |records| / 2
    ensures multiset(EarlyHalf(records) + LateHalf(records)) == multiset(records)
    ensures forall a, b :: a in EarlyHalf(records) && b in LateHalf(records) ==> DateLe(a.soldDate, b.soldDate)
  {
    var sorted := ByDate(records);
    ByDateSorted(records);
    assert EarlyHalf(records) == sorted[..|sorted| / 2] && LateHalf(records) == sorted[|sorted| / 2..];
    assert sorted[..|sorted| / 2] + sorted[|sorted| / 2..] == sorted;
    EarlyBeforeLate(records);
  }

  lemma EarlyBeforeLate(records: seq<PriceRecord>)
    ensures forall a, b :: a in EarlyHalf(records) && b in LateHalf(records) ==> DateLe(a.soldDate, b.soldDate)
  {
    var sorted := ByDate(records);
    ByDateSorted(records);
    var early, late := EarlyHalf(records), LateHalf(records);
    forall a, b | a in early && b in late ensures DateLe(a.soldDate, b.soldDate) {
      var i :| 0 <= i < |early| && early[i] == a;
      var j :| 0 <= j < |late| && late[j] == b;
      assert early[i] == sorted[i] && late[j] == sorted[|sorted| / 2 + j];
      assert SoldNoLater(sorted[i], sorted[|sorted| / 2 + j]);
    }
  }

  /** Sales already in date order are split where they stand. */
  lemma TrendOfDateOrdered(records: seq<PriceRecord>)
    requires SortedBy(records, SoldNoLater)
    ensures EarlyHalf(records) == records[..|records| / 2]
    ensures LateHalf(records) == records[|records| / 2..]
  {
    SortBySortedIsIdentity(records, SoldNoLater);
  }

  /** Sorting sales with pairwise distinct dates leaves no two of them tied. */
  lemma DistinctDatesNoTies(records: seq<PriceRecord>)
    requires forall i, j :: 0 <= i < j < |records| ==> records[i].soldDate != records[j].soldDate
    ensures NoTies(ByDate(records), SoldNoLater)
  {
    var sorted := ByDate(records);
    ByDateSorted(records);
    forall i, j | 0 <= i < |sorted| && 0 <= j < |sorted| && SoldNoLater(sorted[i], sorted[j]) && SoldNoLater(sorted[j], sorted[i])
      ensures sorted[i] == sorted[j]
    {
      assert sorted[i] in multiset(records) && sorted[j] in multiset(records);
      var i' :| 0 <= i' < |records| && records[i'] == sorted[i];
      var j' :| 0 <= j' < |records| && records[j'] == sorted[j];
      assert records[i'].soldDate == records[j'].soldDate;
    }
  }

  /** When no two sales share a date, the order the records arrive in does not matter. */
  lemma TrendIgnoresInputOrder(r1: seq<PriceRecord>, r2: seq<PriceRecord>)
    requires multiset(r1) == multiset(r2)
    requires forall i, j :: 0 <= i < j < |r1| ==> r1[i].soldDate != r1[j].soldDate
    ensures PriceTrend(r1) == PriceTrend(r2)
  {
    ByDateSorted(r1);
    ByDateSorted(r2);
    DistinctDatesNoTies(r1);
    SortedPermutationsEqual(ByDate(r1), ByDate(r2), SoldNoLater);
    assert |r1| == |r2| by { assert |multiset(r1)| == |multiset(r2)|; }
  }

  lemma SumOfThree(s: seq<int>)
    requires |s| == 3
    ensures Sum(s) == s[0] + s[1] + s[2]
  {
    assert s[1..][0] == s[1] && s[1..][1..][0] == s[2] && s[1..][1..][1..] == [];
    assert Sum(s[1..][1..]) == s[2];
  }

  /** Six sales in date order at 18000, 21500, 23000, 25500, 27000 and 29000: early mean 20833, late mean 27167, rising. */
  lemma TrendExampleRising(rs: seq<PriceRecord>)
    requires SortedBy(rs, SoldNoLater)
    requires PricesOf(rs) == [18000, 21500, 23000, 25500, 27000, 29000]
    ensures PriceTrend(rs) == Ok(Rising)
  {
    TrendOfDateOrdered(rs);
    SumOfThree(PricesOf(EarlyHalf(rs)));
    SumOfThree(PricesOf(LateHalf(rs)));
  }
}
