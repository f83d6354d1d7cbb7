# BMW 02 tracker: market analytics, verified

A Dafny model of the analytics in `app/routes.py` of the BMW 02 tracker, a
small Flask application that keeps a registry of surviving cars, a tracker
for cars currently for sale, and a history of sold prices. The model covers:

- the price-trend classifier `_price_trend`;
- the deal rating `_compute_deal_rating`;
- the per-variant summary loop and the chart grouping loop of `market()`;
- the per-variant dashboard statistics of `index()`;
- the filters and orderings of `registry()` and `listings()`, and the
  `deal_ratings` loop of `listings()`;
- `_variant_choices`.

The database queries are modelled as operations on sequences of records.
`Records` holds the four tables: variants, registry cars, listings and
price records. An inner join with the variant table keeps the rows whose
variant exists. `ORDER BY` is a stable insertion sort, proved sorted and a
permutation of its input. A SQL `NULL` text column is the empty string; a
nullable number or date is an `Option`.

Arithmetic is exact:

- prices are unbounded integers;
- `int(x / y)` is truncation toward zero (`Stats.TruncDiv`);
- the percentage tests are done on `real` and proved equivalent to
  cross-multiplied integer comparisons.

The pure helpers (`Trends`, `Deals`, `Market`, `Queries`) are functions with
lemmas. The loops of the view functions (`Views`) are methods. Each method
is proved equal to a function computed over a prefix, and the lemmas state
what that function promises.

The trend split is the code's: the early half is the first `n // 2`
records in date order and the late half the rest, so for odd `n` the late
half holds the extra record (`Trends.TrendSplit`).

## Model

| member | source | states |
|---|---|---|
| Trends.PriceTrend | app/routes.py:241-254 | fewer than two records give `stable` whatever the prices; the only failure is the division by a zero early mean, which happens exactly when there are at least two records and the early half's prices sum to zero |
| Trends.Classify | app/routes.py:249-254 | the bands are strict: with a positive early mean, `rising` iff the late mean exceeds the early mean by more than 5 % and `falling` iff it is more than 5 % below; exactly ±5 % is `stable`; the comparisons flip for a negative early mean; a zero early mean is a division by zero |
| Trends.PctChangeExact | app/routes.py:249 | the percentage change of the two means equals `100·(L·e − E·l) / (E·l)` for sums E, L over counts e, l |
| Trends.ByDateSorted | app/routes.py:245 | the date sort is ordered by sold date and a permutation of the records |
| Trends.TrendSplit | app/routes.py:245-248 | the early half has `n // 2` records and the late half `n − n // 2`; together they are a permutation of the input; every early sale is dated no later than every late sale |
| Trends.TrendOfDateOrdered | app/routes.py:245-248 | on input already in date order the halves are the plain prefix and suffix at `n // 2` |
| Trends.TrendIgnoresInputOrder | app/routes.py:245-254 | two orderings of the same sales with distinct sold dates give the same trend |
| Trends.TrendExampleRising | app/routes.py:241-254 | six date-ordered sales priced 18000 … 29000 classify as `rising` |
| Deals.ComparisonPrices | app/routes.py:259-276 | the fallback order: the same-variant, same-condition prices when their mean is truthy; otherwise the variant-wide prices when theirs is; otherwise none; a returned set is always non-empty with a non-zero sum |
| Deals.DiffPctExact | app/routes.py:279 | `diff_pct` equals `100·(price − avg) / avg` |
| Deals.RateAgainst | app/routes.py:278-292 | against a positive mean: `great` iff below −15 %, `good` iff in [−15 %, −5 %), `fair` iff in [−5 %, +10 %], `high` iff above +10 %, all as cross-multiplied integer tests; mirrored for a negative mean; never `unknown` |
| Deals.BandBoundaries | app/routes.py:281-292 | exactly −15 % is `good`, exactly −5 % and exactly +10 % are `fair`; 21675 against 25500 is `good`, 29325 against 25500 is `high` |
| Deals.DealRatingAsWritten | app/routes.py:257-292 | the rating as the code computes it: `unknown` when there is no mean to compare with, and a failure only after a truthy mean was found |
| Deals.AsWrittenFailsIff | app/routes.py:267-279 | the code fails exactly when a truthy mean lies strictly between −1 and 1, so it passes the truthiness test and truncates to 0 |
| Deals.AsWrittenDividesByZero | app/routes.py:267-279 | two same-condition sales priced 0 and 1 make the code divide by zero, and the corrected rating is `unknown` |
| Deals.DealRating | app/routes.py:257-292 | the corrected rating equals the code's result wherever the code does not fail, and is `unknown` where it divides by zero |
| Deals.ComparableNonNegative | app/routes.py:259-273 | with non-negative prices, every compared price is non-negative |
| Deals.ComparableSums | app/routes.py:259-273 | with non-negative prices, the condition-matched sum lies between 0 and the variant-wide sum |
| Deals.NoDataIffNoVariantSales | app/routes.py:267-276 | with non-negative prices, the rating is `unknown` ("No data") exactly when the variant-wide sales are missing or sum to zero |
| Deals.NoComparisonIffZeroSum | app/routes.py:259-276 | with non-negative prices, there is no mean to compare with exactly when the variant-wide sales are missing or sum to zero |
| Deals.UnknownOnlyWithoutData | app/routes.py:274-292 | the code answers `unknown` exactly when it found no truthy mean to compare with |
| Deals.ConditionIgnoredWithoutData | app/routes.py:267-273 | when neither listing's condition has usable sales, two listings of one variant at one price get the same rating |
| Deals.OnlySameConditionSalesCount | app/routes.py:259-267 | when the condition-matched mean is truthy, sales in other conditions or of other variants do not affect the rating |
| Deals.RateAgainstMonotone | app/routes.py:281-292 | against a fixed positive mean, a higher price never gets a better band |
| Deals.RatingMonotoneInPrice | app/routes.py:257-292 | with non-negative prices, of two listings of the same variant and condition, the dearer one is `unknown` iff the cheaper is, and never gets a better rating |
| Stats.TruncDivBounds | app/routes.py:203-204 | `int(a / b)` truncates toward zero: for `a ≥ 0` the largest `q ≥ 0` with `q·b ≤ a`, for `a < 0` the smallest `q ≤ 0` with `a ≤ q·b` |
| Stats.TruncDivZero | app/routes.py:278 | a truncated quotient is 0 exactly when the numerator lies strictly between −b and b |
| Stats.Min | app/routes.py:201 | `min(prices)` is one of the prices and no price is below it |
| Stats.Max | app/routes.py:202 | `max(prices)` is one of the prices and no price is above it |
| Stats.MeanWithinRange | app/routes.py:201-203 | the truncated mean lies between the minimum and the maximum |
| Stats.MeanBetween | app/routes.py:203-204 | the truncated mean of values within bounds lies within the same bounds |
| Records.Lookup | app/routes.py:189 | `ModelVariant.query.get(id)` finds a variant with that id if any exists, and nothing otherwise |
| Orders.SoldNoLaterTotal | app/routes.py:181 | ordering by sold date is a total preorder |
| Orders.ListedNoEarlierTotal | app/routes.py:122 | `listed_at DESC`, with NULL dates first as PostgreSQL sorts them, is a total preorder |
| Orders.NameNoLaterTotal | app/routes.py:13 | ordering variants by name is a total preorder |
| Orders.RowNoLaterTotal | app/routes.py:66 | ordering by variant name, then year, is a total preorder |
| Queries.ActiveId | app/routes.py:61-62 | an id filter is active exactly when the argument is present and not 0 |
| Queries.ActiveText | app/routes.py:63-64 | a condition filter is active exactly when the argument is present and not empty |
| Queries.JoinRegistry | app/routes.py:60 | the join keeps exactly the cars whose variant exists, each with its variant's name |
| Queries.JoinRegistryCounts | app/routes.py:60 | the join holds each car whose variant exists exactly as often as the car is stored, and no row more often than its car |
| Queries.RegistryQueryCorrect | app/routes.py:57-66 | the registry result is ordered by variant name, then year; a row is listed iff it is in the join and passes the active filters; no row is listed more often than the join holds it, and with no active filter every row is listed exactly as often as the join holds it |
| Queries.UniqueCarsStoredOnce | app/routes.py:60 | with car ids a primary key, no car is stored twice |
| Queries.RegistryListsEachCarOnce | app/routes.py:57-66 | with no filter, every stored car whose variant exists is listed exactly once |
| Queries.RegistryFindsAddedCar | app/routes.py:57-66 | a car added to the registry is listed when the registry is filtered by its variant |
| Queries.ListingsQueryCorrect | app/routes.py:113-122 | listings are newest first; a listing is shown iff its variant exists, it is unsold or `sold=1` was given, and it passes the variant filter; no listing is shown more often than it is stored |
| Queries.PriceHistoryCorrect | app/routes.py:181-185 | the market history is in sold-date order and holds exactly the records whose variant exists and passes the variant filter; no record appears more often than it is stored |
| Queries.VariantsByNameCorrect | app/routes.py:24 | the variants ordered by name are sorted by name and a permutation of the variants |
| Queries.VariantChoices | app/routes.py:11-13 | one `(id, name)` pair per variant, in name order, and every pair belongs to a variant |
| Market.RecentPrices | app/routes.py:195-196 | the recent prices are never empty and are drawn from the variant's prices |
| Market.RecentPricesCorrect | app/routes.py:195-196 | when some sale is recent, the recent prices are one price per sale dated on or after 2025-01-01, in history order, so each recent sale counts once in `recent_avg` however many share its price |
| Market.CutoffInclusive | app/routes.py:195 | the cutoff is inclusive: a sale on 2025-01-01 is recent, one on 2024-12-31 is not |
| Market.Summarize | app/routes.py:194-205 | a summary row describes its records: count, min, max, truncated mean, truncated recent mean and trend; min ≤ avg ≤ max and min ≤ recent avg ≤ max; every price lies within [min, max]; with no sale on or after 2025-01-01 the recent average is the average; it fails only if the trend does |
| Market.NothingRecent | app/routes.py:195-196 | when no sale is dated on or after 2025-01-01, the recent prices are all the prices |
| Market.AnalysisCorrect | app/routes.py:188-206 | the rows' variants are exactly the targets that have records, in target order, one row each; every row describes exactly that variant's records; the page fails exactly when some target with records has a trend that divides by zero |
| Market.AnalysisErrPersists | app/routes.py:188-206 | once a summary has failed, the targets after it do not change the outcome |
| Market.Targets | app/routes.py:189 | without a variant filter, all variants by name; with one, at most the single variant with that id, and none when no variant has it |
| Market.UnknownVariantEmptyAnalysis | app/routes.py:181-193 | filtering by an id no variant has leaves an empty price history, so the analysis is empty and the page does not fail |
| Market.Series | app/routes.py:209-218 | a chart series holds a point for every record of that variant name and is never longer than the history |
| Market.SeriesIsFiltered | app/routes.py:209-218 | a series is exactly the points of that name's records, in history order |
| Market.SeriesOnlyOfName | app/routes.py:209-218 | every point of a series comes from a record of that variant name |
| Views.AnalysisLoop | app/routes.py:188-206 | the loop over the targets computes `Analysis` of the targets |
| Views.MarketAnalysis | app/routes.py:181-218 | the market page's analysis equals `MarketSummary`: `Analysis` of the targets over the filtered history; when it succeeds, the chart is `ChartOf` that same filtered history, and a failed analysis builds no chart |
| Views.ChartData | app/routes.py:209-218 | the chart loop computes `ChartOf` of the history |
| Views.ChartOfCorrect | app/routes.py:209-218 | the chart has a key exactly for each variant name in the history; each key's list is that name's points in history order |
| Views.ChartKeys | app/routes.py:210-213 | a variant name is a key of the chart exactly when some record of the history has that name |
| Views.ChartSeries | app/routes.py:210-218 | the list under each key is that name's points in history order, and a name with no key has no points |
| Views.StatsOfCorrect | app/routes.py:28-41 | the dashboard average is `None` exactly when the variant has no sales or they sum to zero, and otherwise lies between the cheapest and dearest sale; the listing count is at most the number of unsold listings and the registry count at most the number of registry cars |
| Views.StatsList | app/routes.py:27-41 | one stats entry per variant |
| Views.StatsListAt | app/routes.py:27-41 | the i-th stats entry is the statistics of the i-th variant, so the entries follow the variants' order |
| Views.CollectStats | app/routes.py:27-41 | the loop over the variants computes `StatsList` of them |
| Views.Dashboard | app/routes.py:20-41 | the totals are the registry size, the unsold listings and the price-record count; `variant_stats` is `StatsList` of the variants by name |
| Views.DashboardCountsAddUp | app/routes.py:22-34 | with unique variant ids and every listing's variant present, the per-variant active-listing counts add up to the active-listings total |
| Views.RatingsOfCorrect | app/routes.py:126-129 | with ids unique among the shown listings, a loop that succeeds gives every unsold listing its own rating, equal to the corrected rating, and rates no other id |
| Views.RatingsOfFails | app/routes.py:126-129 | the loop fails exactly when an unsold listing shown has a rating that divides by zero |
| Views.RatingsErrPersists | app/routes.py:127-129 | once a rating has failed, the listings after it do not change the outcome |
| Views.RateListings | app/routes.py:126-129 | the rating loop, stopping at the first failing rating, computes `RatingsOf` of the listings it is given |
| Views.ListingsView | app/routes.py:113-129 | the page shows `ListingsQuery`, and its ratings, or the failure that ends the request, are `RatingsOf` what it shows |
| Views.ListingsViewRatesUnsold | app/routes.py:113-129 | on a listings table keyed by id, the page fails exactly when an unsold listing it shows has a rating that divides by zero; otherwise every unsold listing shown is rated and no other id is |

## Left out

- Flask routing, templates, `flash`, `redirect`, `get_or_404`, the form classes and the add, edit and delete routes. They are web and form plumbing with no analytics in them.
- Query-string parsing: `request.args.get(..., type=int)` becomes `Option<int>`, with a malformed value the same as an absent one.
- The database session. Tables are sequences and `func.avg` is an exact mean of the selected prices. PostgreSQL's `numeric` average and its rounding are not modelled.
- Python float arithmetic. Divisions and percentages are exact, so a result that IEEE-754 rounding would tip across a band boundary is not modelled.
- The `detail` strings of a rating, with their `£{:,}` and `.0f` formatting, and the ISO date strings of `chart_data`. They are presentation only; a chart point keeps the date as a value.
- Text collation. Names are ordered by code point, not by the database's collation.
- The order of rows that tie under `ORDER BY`. SQL leaves it unspecified; the model's sort is stable and keeps input order.
- NULL against the empty string. A NULL text column and "" are the same value here, so a listing without a condition is compared with the sales without one. In the database `condition = ''` and `IS NULL` would each match only one of the two; that difference is not modelled.
- `is_sold` NULL. The column is a boolean defaulting to false and is modelled as `bool`. A NULL would be hidden by `is_sold == False` in SQL but rated by `not listing.is_sold` in Python.
- The timestamps `added_at` and `updated_at`. They depend on the wall clock.
- The seed data and application start-up in `app/seed.py`, `app/__init__.py` and `run.py`.
- Deals.RatingMonotoneInPrice: proved only for non-negative prices. With negative sale prices the truncated mean can be negative and the bands reverse.
- Deals.NoDataIffNoVariantSales: proved only for non-negative prices. With mixed signs, the condition-matched sales can have a non-zero sum while all the variant's sales sum to zero; the code then rates against the condition-matched mean instead of answering `unknown`.
- Queries.RegistryListsEachCarOnce: assumes that no two cars share an id. The database guarantees this through its primary key.
- Views.DashboardCountsAddUp: assumes unique variant ids and that every listing's variant exists. The database guarantees both through its primary and foreign keys.

## Findings

| source | as written | input that shows it | evidently intended | confidence | as-written member | corrected member |
|---|---|---|---|---|---|---|
| app/routes.py:274-279 | the test for "no data" is made on the mean before `int()`, so a mean strictly between −1 and 1 passes, truncates to 0 and `diff_pct` divides by zero | a listing whose variant and condition have two sales priced £0 and £1 (mean 0.5); the sale form's `DataRequired` rejects a £0 price (app/forms.py:70) and the table has no check constraint, so such a sale comes only from rows written outside the form | a mean that truncates to 0 is treated as "No data" and rated `unknown` | not executed | Deals.DealRatingAsWritten (failure shown by Deals.AsWrittenDividesByZero and characterised by Deals.AsWrittenFailsIff) | Deals.DealRating |
