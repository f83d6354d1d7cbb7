/**
 * The per-variant market summary computed by the loop in `market()`, and
 * the chart series it groups the price history into.
 */
module Market {
  import opened Results
  import opened Records
  import opened Sequences
  import opened Stats
  import opened Trends
  import opened Queries

  datatype Summary = Summary(
    variant: Variant,
    count: nat,
    minPrice: int,
    maxPrice: int,
    avgPrice: int,
    recentAvg: int,
    trend: Trend)

  function InVariant(variantId: int): PriceRecord -> bool {
    (r: PriceRecord) => r.variantId == variantId
  }

  /** The sales of one variant, in history order. */
  function OfVariant(history: seq<PriceRecord>, variantId: int): seq<PriceRecord> {
    Filter(history, InVariant(variantId))
  }

  /** Sold on or after the cutoff, inclusive. */
  predicate IsRecent(r: PriceRecord) {
    DateLe(RecentCutoff, r.soldDate)
  }

  /** `recent_prices`: prices of the recent sales, or of all sales when none is recent. */
  function RecentPrices(records: seq<PriceRecord>): (ps: seq<int>)
    requires records != []
    ensures ps != []
    ensures forall x :: x in ps ==> x in PricesOf(records)
  {
    var recent := Filter(records, IsRecent);
    if recent != [] then
      FilterMembers(records, IsRecent);
      assert forall i :: 0 <= i < |recent| ==> recent[i] in records;
      assert forall x :: x in PricesOf(recent) ==> x in PricesOf(records) by {
        forall x | x in PricesOf(recent) ensures x in PricesOf(records) {
          var i :| 0 <= i < |recent| && PricesOf(recent)[i] == x;
          var j :| 0 <= j < |records| && records[j] == recent[i];
          assert PricesOf(records)[j] == x;
        }
      }
      PricesOf(recent)
    else PricesOf(records)
  }

  /** What a summary row says about the sales it was computed from. */
  ghost predicate Describes(s: Summary, records: seq<PriceRecord>) {
    && records != []
    && s.count == |records|
    && s.minPrice == Min(PricesOf(records))
    && s.maxPrice == Max(PricesOf(records))
    && s.avgPrice == TruncatedMean(PricesOf(records))
    && s.recentAvg == TruncatedMean(RecentPrices(records))
    && PriceTrend(records) == Ok(s.trend)
  }

  lemma PricesCover(records: seq<PriceRecord>)
    ensures forall x :: x in records ==> x.priceGbp in PricesOf(records)
  {
    forall x | x in records ensures x.priceGbp in PricesOf(records) {
      var i :| 0 <= i < |records| && records[i] == x;
      assert PricesOf(records)[i] == x.priceGbp;
    }
  }

  /**
   * When some sale is recent, the recent prices are exactly the prices of
   * the recent sales: one price per recent sale, in history order, so a
   * price shared by several recent sales is counted once for each.
   */
  lemma RecentPricesCorrect(records: seq<PriceRecord>)
    requires records != []
    ensures (exists x :: x in records && IsRecent(x)) ==>
      && (forall x :: x in records && IsRecent(x) ==> x.priceGbp in RecentPrices(records))
      && (forall p :: p in RecentPrices(records) ==> exists x :: x in records && IsRecent(x) && x.priceGbp == p)
      && |RecentPrices(records)| == |Filter(records, IsRecent)|
      && (forall i :: 0 <= i < |RecentPrices(records)| ==> RecentPrices(records)[i] == Filter(records, IsRecent)[i].priceGbp)
  {
    var recent := Filter(records, IsRecent);
    FilterMembers(records, IsRecent);
    if exists x :: x in records && IsRecent(x) {
      var y :| y in records && IsRecent(y);
      assert y in recent;
      assert RecentPrices(records) == PricesOf(recent);
      forall x | x in records && IsRecent(x) ensures x.priceGbp in PricesOf(recent) {
        var i :| 0 <= i < |recent| && recent[i] == x;
        assert PricesOf(recent)[i] == x.priceGbp;
      }
      forall p | p in PricesOf(recent) ensures exists x :: x in records && IsRecent(x) && x.priceGbp == p {
        var i :| 0 <= i < |recent| && PricesOf(recent)[i] == p;
        assert recent[i] in recent;
      }
    }
  }

  /** The cutoff is inclusive: a sale on 1 January 2025 is recent, one on 31 December 2024 is not. */
  lemma CutoffInclusive(r: PriceRecord)
    ensures r.soldDate == Date(2025, 1, 1) ==> IsRecent(r)
    ensures r.soldDate == Date(2024, 12, 31) ==> !IsRecent(r)
  {
  }

  /** With no recent sale, the recent mean is taken over all sales. */
  lemma NothingRecent(records: seq<PriceRecord>)
    requires records != []
    ensures (forall x :: x in records ==> !IsRecent(x)) ==> RecentPrices(records) == PricesOf(records)
  {
    if forall x :: x in records ==> !IsRecent(x) {
      FilterMembers(records, IsRecent);
      if Filter(records, IsRecent) != [] {
        assert Filter(records, IsRecent)[0] in Filter(records, IsRecent);
      }
    }
  }

  /**
   * One entry of `analysis`. The mean lies between the cheapest and the
   * dearest sale, so does the recent mean, and the recent mean is the
   * overall mean when no sale is recent. Only the trend can fail.
   */
  function Summarize(v: Variant, records: seq<PriceRecord>): (r: Result<Summary>)
    requires records != []
    ensures r.Err? <==> PriceTrend(records).Err?
    ensures r.Ok? ==> r.value.variant == v && Describes(r.value, records)
    ensures r.Ok? ==> r.value.minPrice <= r.value.avgPrice <= r.value.maxPrice
    ensures r.Ok? ==> r.value.minPrice <= r.value.recentAvg <= r.value.maxPrice
    ensures r.Ok? ==> forall x :: x in records ==> r.value.minPrice <= x.priceGbp <= r.value.maxPrice
    ensures r.Ok? && (forall x :: x in records ==> !IsRecent(x)) ==> r.value.recentAvg == r.value.avgPrice
  {
    var prices := PricesOf(records);
    var recentPrices := RecentPrices(records);
    MeanWithinRange(prices);
    MeanBetween(recentPrices, Min(prices), Max(prices));
    PricesCover(records);
    NothingRecent(records);
    match PriceTrend(records)
    case Err(e) => Err(e)
    case Ok(t) =>
      Ok(Summary(v, |records|, Min(prices), Max(prices), TruncatedMean(prices), TruncatedMean(recentPrices), t))
  }

  /**
   * `analysis` after the loop over `targets`: one summary per target that
   * has sales, in target order; targets without sales are skipped; the first
   * failing trend fails the whole page.
   */
  function Analysis(targets: seq<Variant>, history: seq<PriceRecord>): Result<seq<Summary>> {
    if targets == [] then Ok([])
    else
      var n := |targets| - 1;
      AnalysisStep(Analysis(targets[..n], history), targets[n], history)
  }

  /** One pass of the loop: append the target's summary if it has sales; a failure is final. */
  function AnalysisStep(acc: Result<seq<Summary>>, v: Variant, history: seq<PriceRecord>): Result<seq<Summary>> {
    match acc
    case Err(e) => Err(e)
    case Ok(prefix) =>
      var records := OfVariant(history, v.id);
      if records == [] then Ok(prefix)
      else
        match Summarize(v, records)
        case Err(e) => Err(e)
        case Ok(s) => Ok(prefix + [s])
  }

  lemma StepErr(e: Error, v: Variant, history: seq<PriceRecord>)
    ensures AnalysisStep(Err(e), v, history) == Err(e)
  {
  }

  lemma Unfold(ts: seq<Variant>, history: seq<PriceRecord>)
    requires ts != []
    ensures Analysis(ts, history) == AnalysisStep(Analysis(ts[..|ts| - 1], history), ts[|ts| - 1], history)
  {
  }

  /** A successful step extended a successful prefix by at most the target's own row. */
  lemma StepOk(acc: Result<seq<Summary>>, v: Variant, history: seq<PriceRecord>)
    requires AnalysisStep(acc, v, history).Ok?
    ensures acc.Ok?
    ensures OfVariant(history, v.id) == [] ==> AnalysisStep(acc, v, history).value == acc.value
    ensures OfVariant(history, v.id) != [] ==>
      && Summarize(v, OfVariant(history, v.id)).Ok?
      && AnalysisStep(acc, v, history).value == acc.value + [Summarize(v, OfVariant(history, v.id)).value]
  {
  }

  /** A step adds rows for its own target only. */
  lemma StepRowFor(acc: Result<seq<Summary>>, v: Variant, history: seq<PriceRecord>)
    requires AnalysisStep(acc, v, history).Ok?
    ensures acc.Ok?
    ensures forall s :: s in AnalysisStep(acc, v, history).value ==> s in acc.value || s.variant == v
  {
  }

  /** A step keeps every earlier row and adds one for its target when that has sales. */
  lemma StepKeepsRows(acc: Result<seq<Summary>>, v: Variant, history: seq<PriceRecord>)
    requires AnalysisStep(acc, v, history).Ok?
    ensures acc.Ok?
    ensures forall s :: s in acc.value ==> s in AnalysisStep(acc, v, history).value
    ensures OfVariant(history, v.id) != [] ==>
      exists s :: s in AnalysisStep(acc, v, history).value && s.variant == v
  {
    if OfVariant(history, v.id) != [] {
      var s := Summarize(v, OfVariant(history, v.id)).value;
      assert s in AnalysisStep(acc, v, history).value;
    }
  }

  /** Once the loop has failed, later targets do not change the outcome. */
  lemma {:induction false} AnalysisErrPersists(done: seq<Variant>, rest: seq<Variant>, history: seq<PriceRecord>)
    requires Analysis(done, history).Err?
    ensures Analysis(done + rest, history) == Analysis(done, history)
  {
    if rest == [] {
      assert done + rest == done;
    } else {
      var n := |rest| - 1;
      var all := done + rest;
      assert all[..|all| - 1] == done + rest[..n];
      AnalysisErrPersists(done, rest[..n], history);
      Unfold(all, history);
      StepErr(Analysis(done, history).error, rest[n], history);
    }
  }

  /** The same, for the loop that stops at the `i`-th target. */
  lemma AnalysisErrPrefix(targets: seq<Variant>, history: seq<PriceRecord>, i: nat)
    requires i <= |targets|
    requires Analysis(targets[..i], history).Err?
    ensures Analysis(targets, history) == Analysis(targets[..i], history)
  {
    var done, rest := targets[..i], targets[i..];
    assert done + rest == targets;
    AnalysisErrPersists(done, rest, history);
  }

  function HasSales(history: seq<PriceRecord>): Variant -> bool {
    (v: Variant) => OfVariant(history, v.id) != []
  }

  /** The variant of each row, in row order. */
  function RowVariants(rows: seq<Summary>): (vs: seq<Variant>)
    ensures |vs| == |rows|
  {
    if rows == [] then []
    else
      var n := |rows| - 1;
      RowVariants(rows[..n]) + [rows[n].variant]
  }

  lemma RowVariantsAppend(rows: seq<Summary>, s: Summary)
    ensures RowVariants(rows + [s]) == RowVariants(rows) + [s.variant]
  {
    assert (rows + [s])[..|rows|] == rows;
  }

  /**
   * The rows follow the targets: one row for each target that has sales,
   * in target order, and none for the others; each row describes exactly
   * its variant's sales. The page fails exactly when some target with sales
   * has a trend that divides by zero.
   */
  lemma AnalysisCorrect(targets: seq<Variant>, history: seq<PriceRecord>)
    ensures var r := Analysis(targets, history);
      && (r.Ok? ==> RowVariants(r.value) == Filter(targets, HasSales(history)))
      && (r.Ok? ==> forall s :: s in r.value ==>
            s.variant in targets && Describes(s, OfVariant(history, s.variant.id)))
      && (r.Ok? ==> forall v :: v in targets && OfVariant(history, v.id) != [] ==>
            exists s :: s in r.value && s.variant == v)
      && (r.Err? <==> exists v :: v in targets && OfVariant(history, v.id) != [] && PriceTrend(OfVariant(history, v.id)).Err?)
  {
    AnalysisOrder(targets, history);
    AnalysisRows(targets, history);
    AnalysisRowsForTargets(targets, history);
    AnalysisCovers(targets, history);
    AnalysisFails(targets, history);
  }

  lemma {:induction false} AnalysisOrder(targets: seq<Variant>, history: seq<PriceRecord>)
    ensures Analysis(targets, history).Ok? ==>
      RowVariants(Analysis(targets, history).value) == Filter(targets, HasSales(history))
  {
    if targets != [] {
      var n := |targets| - 1;
      var init, v, keep := targets[..n], targets[n], HasSales(history);
      Unfold(targets, history);
      var acc := Analysis(init, history);
      if AnalysisStep(acc, v, history).Ok? {
        StepOrder(acc, v, history);
        AnalysisOrder(init, history);
        var tail := if keep(v) then [v] else [];
        assert Filter(targets, keep) == Filter(init, keep) + tail;
        assert RowVariants(acc.value) == Filter(init, keep);
        assert RowVariants(AnalysisStep(acc, v, history).value) == Filter(init, keep) + tail;
      }
    }
  }

  /** A successful step adds a row for its target exactly when the target has sales. */
  lemma StepOrder(acc: Result<seq<Summary>>, v: Variant, history: seq<PriceRecord>)
    requires AnalysisStep(acc, v, history).Ok?
    ensures acc.Ok?
    ensures RowVariants(AnalysisStep(acc, v, history).value)
         == RowVariants(acc.value) + (if HasSales(history)(v) then [v] else [])
  {
    StepOk(acc, v, history);
    if OfVariant(history, v.id) != [] {
      RowVariantsAppend(acc.value, Summarize(v, OfVariant(history, v.id)).value);
    } else {
      assert RowVariants(acc.value) + [] == RowVariants(acc.value);
    }
  }

  /** A step fails exactly when the loop had failed or the target's trend fails. */
  lemma StepFails(acc: Result<seq<Summary>>, v: Variant, history: seq<PriceRecord>)
    ensures AnalysisStep(acc, v, history).Err? <==>
      acc.Err? || (OfVariant(history, v.id) != [] && PriceTrend(OfVariant(history, v.id)).Err?)
  {
  }

  lemma {:induction false} AnalysisFails(targets: seq<Variant>, history: seq<PriceRecord>)
    ensures Analysis(targets, history).Err? <==>
      exists v :: v in targets && OfVariant(history, v.id) != [] && PriceTrend(OfVariant(history, v.id)).Err?
  {
    if targets != [] {
      var n := |targets| - 1;
      Unfold(targets, history);
      StepFails(Analysis(targets[..n], history), targets[n], history);
      AnalysisFails(targets[..n], history);
      assert forall v :: v in targets <==> v in targets[..n] || v == targets[n];
    }
  }

  lemma {:induction false} AnalysisRows(targets: seq<Variant>, history: seq<PriceRecord>)
    ensures Analysis(targets, history).Ok? ==> forall s :: s in Analysis(targets, history).value ==>
      Describes(s, OfVariant(history, s.variant.id))
  {
    if targets != [] {
      var n := |targets| - 1;
      Unfold(targets, history);
      if Analysis(targets, history).Ok? {
        StepOk(Analysis(targets[..n], history), targets[n], history);
        AnalysisRows(targets[..n], history);
      }
    }
  }

  lemma {:induction false} AnalysisRowsForTargets(targets: seq<Variant>, history: seq<PriceRecord>)
    ensures Analysis(targets, history).Ok? ==> forall s :: s in Analysis(targets, history).value ==>
      s.variant in targets
  {
    if targets != [] {
      var n := |targets| - 1;
      Unfold(targets, history);
      if Analysis(targets, history).Ok? {
        StepRowFor(Analysis(targets[..n], history), targets[n], history);
        AnalysisRowsForTargets(targets[..n], history);
        assert forall v :: v in targets[..n] ==> v in targets;
      }
    }
  }

  lemma {:induction false} AnalysisCovers(targets: seq<Variant>, history: seq<PriceRecord>)
    ensures Analysis(targets, history).Ok? ==> forall v :: v in targets && OfVariant(history, v.id) != [] ==>
      exists s :: s in Analysis(targets, history).value && s.variant == v
  {
    if targets != [] {
      var n := |targets| - 1;
      Unfold(targets, history);
      if Analysis(targets, history).Ok? {
        StepKeepsRows(Analysis(targets[..n], history), targets[n], history);
        AnalysisCovers(targets[..n], history);
        assert forall v :: v in targets ==> v in targets[..n] || v == targets[n];
      }
    }
  }

  /**
   * The variants the summary loop visits: every variant by name, or the one
   * whose id the filter names. For an id no variant has, the lookup yields
   * no variant and the loop's one pass meets an empty history and skips;
   * that pass is modelled as no target at all (see UnknownVariantEmptyAnalysis).
   */
  function Targets(variants: seq<Variant>, variantArg: Option<int>): (r: seq<Variant>)
    ensures ActiveId(variantArg).None? ==> r == VariantsByName(variants)
    ensures ActiveId(variantArg).Some? ==>
      && |r| <= 1
      && (r == [] <==> forall v :: v in variants ==> v.id != variantArg.value)
      && (forall v :: v in r ==> v in variants && v.id == variantArg.value)
  {
    match ActiveId(variantArg)
    case None => VariantsByName(variants)
    case Some(id) =>
      match Lookup(variants, id)
      case None => []
      case Some(v) => [v]
  }

  /** The market page's analysis, or the error that ends the request. */
  function MarketSummary(variants: seq<Variant>, records: seq<PriceRecord>, variantArg: Option<int>): Result<seq<Summary>> {
    Analysis(Targets(variants, variantArg), PriceHistory(records, variants, variantArg))
  }

  /**
   * Filtering by an id that no variant has leaves no price record (the join
   * drops records of unknown variants), so the page shows an empty analysis.
   */
  lemma UnknownVariantEmptyAnalysis(variants: seq<Variant>, records: seq<PriceRecord>, variantArg: Option<int>)
    requires ActiveId(variantArg).Some?
    requires forall v :: v in variants ==> v.id != variantArg.value
    ensures PriceHistory(records, variants, variantArg) == []
    ensures MarketSummary(variants, records, variantArg) == Ok([])
  {
    var history := PriceHistory(records, variants, variantArg);
    PriceHistoryCorrect(records, variants, variantArg);
    if history != [] {
      assert false;
    }
  }

  // ------------------------------------------------------------------ chart

  datatype ChartPoint = ChartPoint(date: Date, price: int, condition: string)

  /** A chart point: the sale's date and price, and its condition or "unknown" when it has none. */
  function PointOf(r: PriceRecord): ChartPoint {
    ChartPoint(r.soldDate, r.priceGbp, if r.condition == "" then "unknown" else r.condition)
  }

  /** The name of the record's variant, which the join guarantees. */
  function VariantNameOf(variants: seq<Variant>, r: PriceRecord): Option<string> {
    match Lookup(variants, r.variantId)
    case None => None
    case Some(v) => Some(v.name)
  }

  function NamedAs(variants: seq<Variant>, name: string): PriceRecord -> bool {
    (r: PriceRecord) => VariantNameOf(variants, r) == Some(name)
  }

  /** The chart point of each record, in order. */
  function Points(rs: seq<PriceRecord>): (ps: seq<ChartPoint>)
    ensures |ps| == |rs|
  {
    if rs == [] then []
    else
      var n := |rs| - 1;
      Points(rs[..n]) + [PointOf(rs[n])]
  }

  /** The chart series of one variant name: its sales' points in history order. */
  function Series(history: seq<PriceRecord>, variants: seq<Variant>, name: string): (ps: seq<ChartPoint>)
    ensures forall i :: 0 <= i < |history| && VariantNameOf(variants, history[i]) == Some(name) ==>
      PointOf(history[i]) in ps
    ensures |ps| <= |history|
  {
    if history == [] then []
    else
      var n := |history| - 1;
      var last := if VariantNameOf(variants, history[n]) == Some(name) then [PointOf(history[n])] else [];
      var rest := Series(history[..n], variants, name);
      assert forall i :: 0 <= i < n ==> history[..n][i] == history[i];
      rest + last
  }

  lemma PointsAppend(rs: seq<PriceRecord>, tail: seq<PriceRecord>)
    requires |tail| <= 1
    ensures Points(rs + tail) == Points(rs) + Points(tail)
  {
    if tail != [] {
      assert (rs + tail)[..|rs|] == rs;
      assert Points(tail) == [PointOf(tail[0])];
    } else {
      assert rs + tail == rs;
    }
  }

  /**
   * A series is exactly the points of that name's records, in history
   * order: no point of another name, none missing, none reordered.
   */
  lemma {:induction false} SeriesIsFiltered(history: seq<PriceRecord>, variants: seq<Variant>, name: string)
    ensures Series(history, variants, name) == Points(Filter(history, NamedAs(variants, name)))
  {
    if history != [] {
      var n := |history| - 1;
      var keep := NamedAs(variants, name);
      SeriesIsFiltered(history[..n], variants, name);
      var tail := if keep(history[n]) then [history[n]] else [];
      var points := if VariantNameOf(variants, history[n]) == Some(name) then [PointOf(history[n])] else [];
      assert Series(history, variants, name) == Series(history[..n], variants, name) + points;
      assert Filter(history, keep) == Filter(history[..n], keep) + tail;
      PointsAppend(Filter(history[..n], keep), tail);
      assert Points(tail) == points;
    }
  }

  /** Every point of a series comes from a record of that name. */
  lemma SeriesOnlyOfName(history: seq<PriceRecord>, variants: seq<Variant>, name: string)
    ensures forall p :: p in Series(history, variants, name) ==>
      exists r :: r in history && VariantNameOf(variants, r) == Some(name) && PointOf(r) == p
  {
    var kept := Filter(history, NamedAs(variants, name));
    SeriesIsFiltered(history, variants, name);
    FilterMembers(history, NamedAs(variants, name));
    PointsFrom(kept);
  }

  lemma {:induction false} PointsFrom(rs: seq<PriceRecord>)
    ensures forall p :: p in Points(rs) ==> exists r :: r in rs && PointOf(r) == p
  {
    if rs != [] {
      var n := |rs| - 1;
      PointsFrom(rs[..n]);
      assert forall r :: r in rs[..n] ==> r in rs;
      assert rs[n] in rs;
    }
  }
}
