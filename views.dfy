/**
 * The view functions' loops: `market()` appending to `analysis` and filling
 * `chart_data`, `index()` appending to `variant_stats`, and `listings()`
 * filling `deal_ratings`. Each method is proved equal to a function
 * defined over a prefix of its input, and lemmas state what those functions
 * promise.
 */
module Views {
  import opened Results
  import opened Records
  import opened Sequences
  import opened Stats
  import opened Queries
  import opened Deals
  import opened Market

  /** The loop over `target_variants` in `market()`. */
  method AnalysisLoop(ts: seq<Variant>, history: seq<PriceRecord>) returns (r: Result<seq<Summary>>)
    ensures r == Analysis(ts, history)
  {
    var analysis: seq<Summary> := [];
    for i := 0 to |ts|
      invariant Analysis(ts[..i], history) == Ok(analysis)
    {
      assert ts[..i + 1][..i] == ts[..i];
      var recs := OfVariant(history, ts[i].id);
      if recs != [] {
        var summary := Summarize(ts[i], recs);
        if summary.Err? {
          AnalysisErrPrefix(ts, history, i + 1);
          return Err(summary.error);
        }
        analysis := analysis + [summary.value];
      }
    }
    assert ts[..|ts|] == ts;
    r := Ok(analysis);
  }

  /**
   * `market()`: the `analysis` list, or the error that ends the request, and
   * the chart built afterwards from the same filtered history. A failed
   * analysis never reaches the chart, which is then left empty.
   */
  method MarketAnalysis(variants: seq<Variant>, records: seq<PriceRecord>, variantArg: Option<int>)
    returns (r: Result<seq<Summary>>, chart: map<string, seq<ChartPoint>>)
    ensures r == MarketSummary(variants, records, variantArg)
    ensures r.Ok? ==> chart == ChartOf(PriceHistory(records, variants, variantArg), variants)
    ensures r.Err? ==> chart == map[]
  {
    var history := PriceHistory(records, variants, variantArg);
    r := AnalysisLoop(Targets(variants, variantArg), history);
    chart := map[];
    if r.Ok? {
      chart := ChartData(history, variants);
    }
  }

  /**
   * `chart_data` after the loop over the history: each record's point
   * appended to the list of its variant's name.
   */
  function ChartOf(history: seq<PriceRecord>, variants: seq<Variant>): map<string, seq<ChartPoint>> {
    if history == [] then map[]
    else
      var n := |history| - 1;
      AddPoint(ChartOf(history[..n], variants), history[n], variants)
  }

  /** One pass of the chart loop: the record's point appended to its variant's series. */
  function AddPoint(chart: map<string, seq<ChartPoint>>, r: PriceRecord, variants: seq<Variant>): map<string, seq<ChartPoint>> {
    match VariantNameOf(variants, r)
    case None => chart
    case Some(name) => chart[name := (if name in chart then chart[name] else []) + [PointOf(r)]]
  }

  /**
   * The chart has a series for exactly the variant names in the history,
   * and each series is that name's points in history order.
   */
  lemma {:induction false} ChartOfCorrect(history: seq<PriceRecord>, variants: seq<Variant>)
    ensures forall name :: name in ChartOf(history, variants) <==>
      exists r :: r in history && VariantNameOf(variants, r) == Some(name)
    ensures forall name :: name in ChartOf(history, variants) ==>
      ChartOf(history, variants)[name] == Series(history, variants, name)
    ensures forall name :: name !in ChartOf(history, variants) ==> Series(history, variants, name) == []
  {
    ChartKeys(history, variants);
    ChartSeries(history, variants);
  }

  lemma {:induction false} ChartKeys(history: seq<PriceRecord>, variants: seq<Variant>)
    ensures forall name :: name in ChartOf(history, variants) <==>
      exists r :: r in history && VariantNameOf(variants, r) == Some(name)
  {
    if history != [] {
      var n := |history| - 1;
      var prefix := history[..n];
      ChartKeys(prefix, variants);
      assert history == prefix + [history[n]];
      assert forall r :: r in history <==> r in prefix || r == history[n];
    }
  }

  lemma {:induction false} ChartSeries(history: seq<PriceRecord>, variants: seq<Variant>)
    ensures forall name :: name in ChartOf(history, variants) ==>
      ChartOf(history, variants)[name] == Series(history, variants, name)
    ensures forall name :: name !in ChartOf(history, variants) ==> Series(history, variants, name) == []
  {
    if history != [] {
      var n := |history| - 1;
      ChartSeries(history[..n], variants);
    }
  }

  /** `chart_data`: price points grouped by variant name. */
  method ChartData(history: seq<PriceRecord>, variants: seq<Variant>) returns (chart: map<string, seq<ChartPoint>>)
    ensures chart == ChartOf(history, variants)
  {
    chart := map[];
    for i := 0 to |history|
      invariant chart == ChartOf(history[..i], variants)
    {
      var r := history[i];
      assert history[..i + 1][..i] == history[..i];
      match VariantNameOf(variants, r)
      case None =>
      case Some(name) =>
        var series := if name in chart then chart[name] else [];
        chart := chart[name := series + [PointOf(r)]];
    }
    assert history[..|history|] == history;
  }

  datatype VariantStats = VariantStats(variant: Variant, avgPrice: Option<int>, listingCount: nat, registryCount: nat)

  datatype Totals = Totals(registry: nat, activeListings: nat, sold: nat)

  /** The number of unsold listings. */
  function ActiveListings(listings: seq<Listing>): (c: nat)
    ensures c <= |listings|
  {
    if listings == [] then 0
    else
      var n := |listings| - 1;
      ActiveListings(listings[..n]) + (if listings[n].isSold then 0 else 1)
  }

  /** The number of unsold listings of one variant. */
  function ActiveListingsOf(listings: seq<Listing>, variantId: int): (c: nat)
    ensures c <= ActiveListings(listings)
  {
    if listings == [] then 0
    else
      var n := |listings| - 1;
      var l := listings[n];
      ActiveListingsOf(listings[..n], variantId) + (if l.variantId == variantId && !l.isSold then 1 else 0)
  }

  /** The number of registry cars of one variant. */
  function CarsOf(cars: seq<RegistryCar>, variantId: int): (c: nat)
    ensures c <= |cars|
  {
    if cars == [] then 0
    else
      var n := |cars| - 1;
      CarsOf(cars[..n], variantId) + (if cars[n].variantId == variantId then 1 else 0)
  }

  /** The three counts at the top of the dashboard. */
  function TotalsOf(cars: seq<RegistryCar>, listings: seq<Listing>, records: seq<PriceRecord>): Totals {
    Totals(|cars|, ActiveListings(listings), |records|)
  }

  /**
   * One entry of `variant_stats`: the truncated mean price, or None when the
   * variant has no sales or their mean is zero, with the counts of its
   * active listings and registry cars.
   */
  function StatsOf(v: Variant, cars: seq<RegistryCar>, listings: seq<Listing>, records: seq<PriceRecord>)
    : VariantStats
  {
    var prices := OfVariantPrices(records, v.id);
    VariantStats(v, if AvgTruthy(prices) then Some(TruncatedMean(prices)) else None,
      ActiveListingsOf(listings, v.id), CarsOf(cars, v.id))
  }

  /**
   * A variant's average is shown exactly when it has sales whose prices do
   * not sum to zero, and then lies between its cheapest and dearest sale;
   * its counts never exceed the table sizes.
   */
  lemma StatsOfCorrect(v: Variant, cars: seq<RegistryCar>, listings: seq<Listing>, records: seq<PriceRecord>)
    ensures var st := StatsOf(v, cars, listings, records);
      && st.variant == v
      && (st.avgPrice.None? <==> OfVariant(records, v.id) == [] || Sum(OfVariantPrices(records, v.id)) == 0)
      && (st.avgPrice.Some? ==>
        Min(OfVariantPrices(records, v.id)) <= st.avgPrice.value <= Max(OfVariantPrices(records, v.id)))
      && st.listingCount <= ActiveListings(listings) && st.registryCount <= |cars|
  {
    var prices := OfVariantPrices(records, v.id);
    if AvgTruthy(prices) {
      MeanWithinRange(prices);
    }
  }

  function OfVariantPrices(records: seq<PriceRecord>, variantId: int): seq<int> {
    PricesOf(OfVariant(records, variantId))
  }

  /** `variant_stats` for the variants in the given order. */
  function StatsList(vs: seq<Variant>, cars: seq<RegistryCar>, listings: seq<Listing>, records: seq<PriceRecord>)
    : (r: seq<VariantStats>)
    ensures |r| == |vs|
  {
    if vs == [] then []
    else
      var n := |vs| - 1;
      var init := StatsList(vs[..n], cars, listings, records);
      init + [StatsOf(vs[n], cars, listings, records)]
  }

  /** Entry `i` of the list is the stats of the `i`-th variant. */
  lemma {:induction false} StatsListAt(vs: seq<Variant>, cars: seq<RegistryCar>, listings: seq<Listing>, records: seq<PriceRecord>, i: int)
    requires 0 <= i < |vs|
    ensures StatsList(vs, cars, listings, records)[i] == StatsOf(vs[i], cars, listings, records)
  {
    var n := |vs| - 1;
    var init, last := StatsList(vs[..n], cars, listings, records), StatsOf(vs[n], cars, listings, records);
    assert StatsList(vs, cars, listings, records) == init + [last];
    if i < n {
      StatsListAt(vs[..n], cars, listings, records, i);
      assert vs[..n][i] == vs[i];
      assert (init + [last])[i] == init[i];
    } else {
      assert (init + [last])[n] == last;
    }
  }

  /** The loop of `index()` appending to `variant_stats`. */
  method CollectStats(ordered: seq<Variant>, cars: seq<RegistryCar>, listings: seq<Listing>, records: seq<PriceRecord>)
    returns (stats: seq<VariantStats>)
    ensures stats == StatsList(ordered, cars, listings, records)
  {
    stats := [];
    for i := 0 to |ordered|
      invariant stats == StatsList(ordered[..i], cars, listings, records)
    {
      assert ordered[..i + 1][..i] == ordered[..i];
      stats := stats + [StatsOf(ordered[i], cars, listings, records)];
    }
    assert ordered[..|ordered|] == ordered;
  }

  /** The dashboard: the three totals and `variant_stats` for every variant, by name. */
  method Dashboard(variants: seq<Variant>, cars: seq<RegistryCar>, listings: seq<Listing>, records: seq<PriceRecord>)
    returns (totals: Totals, stats: seq<VariantStats>)
    ensures totals == TotalsOf(cars, listings, records)
    ensures stats == StatsList(VariantsByName(variants), cars, listings, records)
  {
    totals := TotalsOf(cars, listings, records);
    stats := CollectStats(VariantsByName(variants), cars, listings, records);
  }

  // ------------------------------------------------ dashboard count totals

  function HasId(id: int): Variant -> bool {
    (v: Variant) => v.id == id
  }

  /** The sum of the `listing_count` column. */
  function ListingTotal(stats: seq<VariantStats>): nat {
    if stats == [] then 0
    else ListingTotal(stats[..|stats| - 1]) + stats[|stats| - 1].listingCount
  }

  /** The per-variant active-listing counts, summed over `vs`. */
  function ActiveCounts(vs: seq<Variant>, listings: seq<Listing>): nat {
    if vs == [] then 0
    else
      var n := |vs| - 1;
      ActiveCounts(vs[..n], listings) + ActiveListingsOf(listings, vs[n].id)
  }

  lemma {:induction false} ListingTotalOfStats(vs: seq<Variant>, cars: seq<RegistryCar>, listings: seq<Listing>, records: seq<PriceRecord>)
    ensures ListingTotal(StatsList(vs, cars, listings, records)) == ActiveCounts(vs, listings)
  {
    if vs != [] {
      var n := |vs| - 1;
      ListingTotalOfStats(vs[..n], cars, listings, records);
      var stats := StatsList(vs, cars, listings, records);
      assert stats[..n] == StatsList(vs[..n], cars, listings, records);
    }
  }

  lemma {:induction false} ActiveCountsNone(vs: seq<Variant>)
    ensures ActiveCounts(vs, []) == 0
  {
    if vs != [] {
      ActiveCountsNone(vs[..|vs| - 1]);
    }
  }

  /** One more listing adds one to the count of every variant entry carrying its id, if it is unsold. */
  lemma {:induction false} ActiveCountsAppend(vs: seq<Variant>, listings: seq<Listing>, x: Listing)
    ensures ActiveCounts(vs, listings + [x])
         == ActiveCounts(vs, listings) + (if x.isSold then 0 else |Filter(vs, HasId(x.variantId))|)
  {
    if vs != [] {
      var n := |vs| - 1;
      var init, v := vs[..n], vs[n];
      ActiveCountsAppend(init, listings, x);
      assert (listings + [x])[..|listings|] == listings;
      assert |Filter(vs, HasId(x.variantId))| == |Filter(init, HasId(x.variantId))| + (if v.id == x.variantId then 1 else 0);
    }
  }

  lemma {:induction false} NoneHasId(vs: seq<Variant>, id: int)
    requires forall v :: v in vs ==> v.id != id
    ensures Filter(vs, HasId(id)) == []
  {
    if vs != [] {
      var n := |vs| - 1;
      assert vs == vs[..n] + [vs[n]];
      NoneHasId(vs[..n], id);
    }
  }

  /** With unique ids, a variant id that is present is carried by exactly one entry. */
  lemma {:induction false} OneHasId(vs: seq<Variant>, id: int)
    requires UniqueVariantIds(vs)
    requires exists k :: 0 <= k < |vs| && vs[k].id == id
    ensures |Filter(vs, HasId(id))| == 1
  {
    var n := |vs| - 1;
    var init, last := vs[..n], vs[n];
    assert vs == init + [last];
    if last.id == id {
      forall v | v in init ensures v.id != id {
        var i :| 0 <= i < n && init[i] == v;
        assert vs[i].id != vs[n].id;
      }
      NoneHasId(init, id);
    } else {
      var k :| 0 <= k < |vs| && vs[k].id == id;
      assert init[k].id == id;
      OneHasId(init, id);
    }
  }

  /** The count of entries with a given id depends only on which entries there are. */
  lemma HasIdCountPermutation(a: seq<Variant>, b: seq<Variant>, id: int)
    requires multiset(a) == multiset(b)
    ensures |Filter(a, HasId(id))| == |Filter(b, HasId(id))|
  {
    var fa, fb := Filter(a, HasId(id)), Filter(b, HasId(id));
    assert multiset(fa) == multiset(fb);
    assert |multiset(fa)| == |multiset(fb)|;
  }

  lemma {:induction false} ActiveCountsTotal(vs: seq<Variant>, listings: seq<Listing>)
    requires forall l :: l in listings && !l.isSold ==> |Filter(vs, HasId(l.variantId))| == 1
    ensures ActiveCounts(vs, listings) == ActiveListings(listings)
  {
    if listings == [] {
      ActiveCountsNone(vs);
    } else {
      var n := |listings| - 1;
      var init, x := listings[..n], listings[n];
      assert listings == init + [x];
      ActiveCountsTotal(vs, init);
      ActiveCountsAppend(vs, init, x);
    }
  }

  /**
   * On the dashboard, the active-listing counts of the variants add up to
   * the "active listings" total, given that variant ids are unique and every
   * listing's variant exists.
   */
  lemma DashboardCountsAddUp(variants: seq<Variant>, cars: seq<RegistryCar>, listings: seq<Listing>, records: seq<PriceRecord>)
    requires UniqueVariantIds(variants)
    requires forall l :: l in listings ==> Lookup(variants, l.variantId).Some?
    ensures ListingTotal(StatsList(VariantsByName(variants), cars, listings, records))
         == TotalsOf(cars, listings, records).activeListings
  {
    var ordered := VariantsByName(variants);
    VariantsByNameCorrect(variants);
    forall l | l in listings && !l.isSold ensures |Filter(ordered, HasId(l.variantId))| == 1 {
      var v := Lookup(variants, l.variantId).value;
      var k :| 0 <= k < |variants| && variants[k] == v;
      OneHasId(variants, l.variantId);
      HasIdCountPermutation(ordered, variants, l.variantId);
    }
    ActiveCountsTotal(ordered, listings);
    ListingTotalOfStats(ordered, cars, listings, records);
  }

  /** Each listing is one row of a table keyed by id. */
  predicate KeyedById(listings: seq<Listing>) {
    forall a, b :: a in listings && b in listings && a.id == b.id ==> a == b
  }

  /**
   * `deal_ratings` after the loop over the shown listings: each unsold
   * listing rated as the code rates it, the first failing rating ending the
   * request.
   */
  function RatingsOf(shown: seq<Listing>, records: seq<PriceRecord>): Result<map<int, Rating>> {
    if shown == [] then Ok(map[])
    else
      var n := |shown| - 1;
      RateStep(RatingsOf(shown[..n], records), shown[n], records)
  }

  /** One pass of the loop: rate the listing if it is unsold; a failure is final. */
  function RateStep(acc: Result<map<int, Rating>>, l: Listing, records: seq<PriceRecord>): Result<map<int, Rating>> {
    match acc
    case Err(e) => Err(e)
    case Ok(ratings) =>
      if l.isSold then Ok(ratings)
      else
        match DealRatingAsWritten(l, records)
        case Err(e) => Err(e)
        case Ok(rating) => Ok(ratings[l.id := rating])
  }

  lemma RatingsUnfold(shown: seq<Listing>, records: seq<PriceRecord>)
    requires shown != []
    ensures RatingsOf(shown, records) == RateStep(RatingsOf(shown[..|shown| - 1], records), shown[|shown| - 1], records)
  {
  }

  /** A successful step kept the earlier ratings and rated the listing if it is unsold. */
  lemma RateStepOk(acc: Result<map<int, Rating>>, l: Listing, records: seq<PriceRecord>)
    requires RateStep(acc, l, records).Ok?
    ensures acc.Ok?
    ensures l.isSold ==> RateStep(acc, l, records).value == acc.value
    ensures !l.isSold ==>
      && DealRatingAsWritten(l, records).Ok?
      && RateStep(acc, l, records).value == acc.value[l.id := DealRating(l, records)]
  {
  }

  /** A step fails exactly when the loop had failed or the listing is unsold and its rating fails. */
  lemma RateStepFails(acc: Result<map<int, Rating>>, l: Listing, records: seq<PriceRecord>)
    ensures RateStep(acc, l, records).Err? <==> acc.Err? || (!l.isSold && DealRatingAsWritten(l, records).Err?)
  {
  }

  /** Once the loop has failed, later listings do not change the outcome. */
  lemma {:induction false} RatingsErrPersists(done: seq<Listing>, rest: seq<Listing>, records: seq<PriceRecord>)
    requires RatingsOf(done, records).Err?
    ensures RatingsOf(done + rest, records) == RatingsOf(done, records)
  {
    if rest == [] {
      assert done + rest == done;
    } else {
      var n := |rest| - 1;
      var all := done + rest;
      assert all[..|all| - 1] == done + rest[..n];
      RatingsErrPersists(done, rest[..n], records);
      RatingsUnfold(all, records);
      RateStepFails(RatingsOf(done + rest[..n], records), rest[n], records);
    }
  }

  /** The same, for the loop that stops at the `i`-th listing. */
  lemma RatingsErrPrefix(shown: seq<Listing>, records: seq<PriceRecord>, i: nat)
    requires i <= |shown|
    requires RatingsOf(shown[..i], records).Err?
    ensures RatingsOf(shown, records) == RatingsOf(shown[..i], records)
  {
    var done, rest := shown[..i], shown[i..];
    assert done + rest == shown;
    RatingsErrPersists(done, rest, records);
  }

  /** The loop fails exactly when some unsold listing shown has a rating that divides by zero. */
  lemma {:induction false} RatingsOfFails(shown: seq<Listing>, records: seq<PriceRecord>)
    ensures RatingsOf(shown, records).Err? <==>
      exists l :: l in shown && !l.isSold && DealRatingAsWritten(l, records).Err?
  {
    if shown != [] {
      var n := |shown| - 1;
      RatingsUnfold(shown, records);
      RateStepFails(RatingsOf(shown[..n], records), shown[n], records);
      RatingsOfFails(shown[..n], records);
      assert forall l :: l in shown <==> l in shown[..n] || l == shown[n];
    }
  }

  /**
   * With ids unique, a loop that succeeds gives every unsold listing shown
   * its own rating, which is then the corrected rating too, and rates no
   * other id.
   */
  lemma {:induction false} RatingsOfCorrect(shown: seq<Listing>, records: seq<PriceRecord>)
    requires KeyedById(shown)
    ensures RatingsOf(shown, records).Ok? ==> forall l :: l in shown && !l.isSold ==>
      l.id in RatingsOf(shown, records).value && RatingsOf(shown, records).value[l.id] == DealRating(l, records)
    ensures RatingsOf(shown, records).Ok? ==> forall id :: id in RatingsOf(shown, records).value ==>
      exists l :: l in shown && !l.isSold && l.id == id
  {
    if shown != [] {
      var n := |shown| - 1;
      var prefix := shown[..n];
      RatingsUnfold(shown, records);
      if RatingsOf(shown, records).Ok? {
        RateStepOk(RatingsOf(prefix, records), shown[n], records);
        assert forall l :: l in shown <==> l in prefix || l == shown[n];
        RatingsOfCorrect(prefix, records);
      }
    }
  }

  /** The listings page: the filtered listings and `deal_ratings`, or the error that ends the request. */
  method ListingsView(listings: seq<Listing>, variants: seq<Variant>, records: seq<PriceRecord>,
                      soldArg: Option<string>, variantArg: Option<int>)
    returns (shown: seq<Listing>, ratings: Result<map<int, Rating>>)
    ensures shown == ListingsQuery(listings, variants, soldArg, variantArg)
    ensures ratings == RatingsOf(shown, records)
  {
    shown := ListingsQuery(listings, variants, soldArg, variantArg);
    ratings := RateListings(shown, records);
  }

  /** The loop of `listings()` filling `deal_ratings`. */
  method RateListings(shown: seq<Listing>, records: seq<PriceRecord>) returns (r: Result<map<int, Rating>>)
    ensures r == RatingsOf(shown, records)
  {
    var ratings: map<int, Rating> := map[];
    for i := 0 to |shown|
      invariant RatingsOf(shown[..i], records) == Ok(ratings)
    {
      assert shown[..i + 1][..i] == shown[..i];
      var l := shown[i];
      if !l.isSold {
        var rating := DealRatingAsWritten(l, records);
        if rating.Err? {
          RatingsErrPrefix(shown, records, i + 1);
          return Err(rating.error);
        }
        ratings := ratings[l.id := rating.value];
      }
    }
    assert shown[..|shown|] == shown;
    r := Ok(ratings);
  }

  /**
   * On a listings table keyed by id, the page fails exactly when an unsold
   * listing it shows has a rating that divides by zero; otherwise it rates
   * every unsold listing it shows and nothing else.
   */
  lemma ListingsViewRatesUnsold(listings: seq<Listing>, variants: seq<Variant>, records: seq<PriceRecord>,
                                soldArg: Option<string>, variantArg: Option<int>)
    requires KeyedById(listings)
    ensures var shown := ListingsQuery(listings, variants, soldArg, variantArg);
      var ratings := RatingsOf(shown, records);
      && (ratings.Err? <==> exists l :: l in shown && !l.isSold && DealRatingAsWritten(l, records).Err?)
      && (ratings.Ok? ==> forall l :: l in shown && !l.isSold ==>
            l.id in ratings.value && ratings.value[l.id] == DealRating(l, records))
      && (ratings.Ok? ==> forall id :: id in ratings.value ==> exists l :: l in shown && !l.isSold && l.id == id)
  {
    var shown := ListingsQuery(listings, variants, soldArg, variantArg);
    ListingsQueryCorrect(listings, variants, soldArg, variantArg);
    RatingsOfFails(shown, records);
    RatingsOfCorrect(shown, records);
  }
}
