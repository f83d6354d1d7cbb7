/**
 * The filtered and ordered reads behind the registry, listings and market
 * views and the variant select lists. A filter argument that is absent or
 * falsy (an id of 0, an empty condition) places no restriction; each query
 * is an inner join with the variant table followed by `ORDER BY`.
 */
module Queries {
  import opened Results
  import opened Records
  import opened Sequences
  import opened Orders

  /** An integer query argument used as a filter: absent or 0 means "no filter". */
  function ActiveId(arg: Option<int>): (r: Option<int>)
    ensures r.None? <==> arg.None? || arg.value == 0
    ensures r.Some? ==> r == arg
  {
    if arg.Some? && arg.value != 0 then arg else None
  }

  /** A text query argument used as a filter: absent or "" means "no filter". */
  function ActiveText(arg: Option<string>): (r: Option<string>)
    ensures r.None? <==> arg.None? || arg.value == ""
    ensures r.Some? ==> r == arg
  {
    if arg.Some? && arg.value != "" then arg else None
  }

  /** Sold listings are shown only when the `sold` argument is exactly "1". */
  predicate ShowSold(arg: Option<string>) {
    arg == Some("1")
  }

  predicate Admits<T(==)>(filter: Option<T>, value: T) {
    filter.None? || filter.value == value
  }

  // ---------------------------------------------------------------- registry

  /**
   * The inner join of cars with variants: each car whose variant exists, with
   * that variant's name, once for each time the car is stored.
   */
  function JoinRegistry(cars: seq<RegistryCar>, variants: seq<Variant>): (rows: seq<RegistryRow>)
    ensures forall row :: row in rows ==>
      row.car in cars && Lookup(variants, row.car.variantId).Some?
      && row.variantName == Lookup(variants, row.car.variantId).value.name
    ensures forall car :: car in cars && Lookup(variants, car.variantId).Some? ==>
      RegistryRow(car, Lookup(variants, car.variantId).value.name) in rows
  {
    if cars == [] then []
    else
      var n := |cars| - 1;
      var rest := JoinRegistry(cars[..n], variants);
      assert forall car :: car in cars <==> car in cars[..n] || car == cars[n];
      match Lookup(variants, cars[n].variantId)
      case None => rest
      case Some(v) => rest + [RegistryRow(cars[n], v.name)]
  }

  /** The join holds each car whose variant exists exactly as often as the car is stored, and no row more often. */
  lemma {:induction false} JoinRegistryCounts(cars: seq<RegistryCar>, variants: seq<Variant>)
    ensures forall row :: multiset(JoinRegistry(cars, variants))[row] <= multiset(cars)[row.car]
    ensures forall car: RegistryCar :: Lookup(variants, car.variantId).Some? ==>
      multiset(JoinRegistry(cars, variants))[RegistryRow(car, Lookup(variants, car.variantId).value.name)] == multiset(cars)[car]
  {
    if cars != [] {
      var n := |cars| - 1;
      var init, last := cars[..n], cars[n];
      JoinRegistryCounts(init, variants);
      assert cars == init + [last];
      assert multiset(cars) == multiset(init) + multiset{last};
      var rest := JoinRegistry(init, variants);
      match Lookup(variants, last.variantId)
      case None =>
        assert JoinRegistry(cars, variants) == rest;
      case Some(v) =>
        var row := RegistryRow(last, v.name);
        assert JoinRegistry(cars, variants) == rest + [row];
        assert multiset(JoinRegistry(cars, variants)) == multiset(rest) + multiset{row};
    }
  }

  function RegistryFilter(variantFilter: Option<int>, conditionFilter: Option<string>): RegistryRow -> bool {
    (row: RegistryRow) => Admits(variantFilter, row.car.variantId) && Admits(conditionFilter, row.car.condition)
  }

  /** The cars the registry page lists, ordered by variant name and then year. */
  function RegistryQuery(cars: seq<RegistryCar>, variants: seq<Variant>, variantArg: Option<int>, conditionArg: Option<string>)
    : seq<RegistryRow>
  {
    var keep := RegistryFilter(ActiveId(variantArg), ActiveText(conditionArg));
    SortBy(Filter(JoinRegistry(cars, variants), keep), RowNoLater)
  }

  lemma RegistryQueryCorrect(cars: seq<RegistryCar>, variants: seq<Variant>, variantArg: Option<int>, conditionArg: Option<string>)
    ensures SortedBy(RegistryQuery(cars, variants, variantArg, conditionArg), RowNoLater)
    ensures forall row :: row in RegistryQuery(cars, variants, variantArg, conditionArg) <==>
      row in JoinRegistry(cars, variants)
      && Admits(ActiveId(variantArg), row.car.variantId)
      && Admits(ActiveText(conditionArg), row.car.condition)
    ensures multiset(RegistryQuery(cars, variants, variantArg, conditionArg)) <= multiset(JoinRegistry(cars, variants))
    ensures ActiveId(variantArg).None? && ActiveText(conditionArg).None? ==>
      multiset(RegistryQuery(cars, variants, variantArg, conditionArg)) == multiset(JoinRegistry(cars, variants))
  {
    var joined, keep := JoinRegistry(cars, variants), RegistryFilter(ActiveId(variantArg), ActiveText(conditionArg));
    RowNoLaterTotal();
    SortedFilter(joined, keep, RowNoLater);
    var kept := Filter(joined, keep);
    forall x ensures multiset(kept)[x] <= multiset(joined)[x] {
    }
    assert multiset(kept) <= multiset(joined);
    if ActiveId(variantArg).None? && ActiveText(conditionArg).None? {
      forall x ensures multiset(kept)[x] == multiset(joined)[x] {
        assert keep(x);
      }
      assert multiset(kept) == multiset(joined);
    }
  }

  /** Registry ids are a primary key: no two stored cars share one. */
  predicate UniqueCarIds(cars: seq<RegistryCar>) {
    forall i, j :: 0 <= i < |cars| && 0 <= j < |cars| && cars[i].id == cars[j].id ==> i == j
  }

  lemma {:induction false} UniqueCarsStoredOnce(cars: seq<RegistryCar>)
    requires UniqueCarIds(cars)
    ensures forall car :: multiset(cars)[car] <= 1
  {
    if cars != [] {
      var n := |cars| - 1;
      assert cars == cars[..n] + [cars[n]];
      assert UniqueCarIds(cars[..n]);
      UniqueCarsStoredOnce(cars[..n]);
      assert cars[n] !in cars[..n];
    }
  }

  /**
   * With no filter and ids a primary key, the registry page lists every car
   * whose variant exists exactly once.
   */
  lemma RegistryListsEachCarOnce(cars: seq<RegistryCar>, variants: seq<Variant>, car: RegistryCar)
    requires UniqueCarIds(cars)
    requires car in cars && Lookup(variants, car.variantId).Some?
    ensures multiset(RegistryQuery(cars, variants, None, None))[RegistryRow(car, Lookup(variants, car.variantId).value.name)] == 1
  {
    RegistryQueryCorrect(cars, variants, None, None);
    JoinRegistryCounts(cars, variants);
    UniqueCarsStoredOnce(cars);
  }

  /** A car just added is listed when the registry is filtered by its variant. */
  lemma RegistryFindsAddedCar(cars: seq<RegistryCar>, variants: seq<Variant>, car: RegistryCar)
    requires Lookup(variants, car.variantId).Some?
    ensures RegistryRow(car, Lookup(variants, car.variantId).value.name)
      in RegistryQuery(cars + [car], variants, Some(car.variantId), None)
  {
    RegistryQueryCorrect(cars + [car], variants, Some(car.variantId), None);
  }

  // ---------------------------------------------------------------- listings

  function ListingFilter(showSold: bool, variantFilter: Option<int>, variants: seq<Variant>): Listing -> bool {
    (l: Listing) => Lookup(variants, l.variantId).Some? && (showSold || !l.isSold) && Admits(variantFilter, l.variantId)
  }

  /** The listings the listings page shows, newest first. */
  function ListingsQuery(listings: seq<Listing>, variants: seq<Variant>, soldArg: Option<string>, variantArg: Option<int>)
    : seq<Listing>
  {
    SortBy(Filter(listings, ListingFilter(ShowSold(soldArg), ActiveId(variantArg), variants)), ListedNoEarlier)
  }

  lemma ListingsQueryCorrect(listings: seq<Listing>, variants: seq<Variant>, soldArg: Option<string>, variantArg: Option<int>)
    ensures SortedBy(ListingsQuery(listings, variants, soldArg, variantArg), ListedNoEarlier)
    ensures forall l :: l in ListingsQuery(listings, variants, soldArg, variantArg) <==>
      l in listings
      && Lookup(variants, l.variantId).Some?
      && (soldArg == Some("1") || !l.isSold)
      && Admits(ActiveId(variantArg), l.variantId)
    ensures multiset(ListingsQuery(listings, variants, soldArg, variantArg)) <= multiset(listings)
  {
    ListedNoEarlierTotal();
    SortedFilter(listings, ListingFilter(ShowSold(soldArg), ActiveId(variantArg), variants), ListedNoEarlier);
  }

  // ----------------------------------------------------------- price history

  function HistoryFilter(variantFilter: Option<int>, variants: seq<Variant>): PriceRecord -> bool {
    (r: PriceRecord) => Lookup(variants, r.variantId).Some? && Admits(variantFilter, r.variantId)
  }

  /** The market page's price records, oldest sale first. */
  function PriceHistory(records: seq<PriceRecord>, variants: seq<Variant>, variantArg: Option<int>): seq<PriceRecord> {
    SortBy(Filter(records, HistoryFilter(ActiveId(variantArg), variants)), SoldNoLater)
  }

  lemma PriceHistoryCorrect(records: seq<PriceRecord>, variants: seq<Variant>, variantArg: Option<int>)
    ensures SortedBy(PriceHistory(records, variants, variantArg), SoldNoLater)
    ensures forall r :: r in PriceHistory(records, variants, variantArg) <==>
      r in records && Lookup(variants, r.variantId).Some? && Admits(ActiveId(variantArg), r.variantId)
    ensures multiset(PriceHistory(records, variants, variantArg)) <= multiset(records)
  {
    SoldNoLaterTotal();
    SortedFilter(records, HistoryFilter(ActiveId(variantArg), variants), SoldNoLater);
  }

  // ---------------------------------------------------------------- variants

  /** All variants, ordered by name. */
  function VariantsByName(variants: seq<Variant>): (r: seq<Variant>)
    ensures |r| == |variants|
  {
    SortBy(variants, NameNoLater)
  }

  lemma VariantsByNameCorrect(variants: seq<Variant>)
    ensures SortedBy(VariantsByName(variants), NameNoLater)
    ensures multiset(VariantsByName(variants)) == multiset(variants)
  {
    assert SortedBy(SortBy(variants, NameNoLater), NameNoLater) by {
      NameNoLaterTotal();
      SortBySorted(variants, NameNoLater);
    }
  }

  /** `_variant_choices()`: (id, name) pairs for the select fields. */
  function VariantChoices(variants: seq<Variant>): (choices: seq<(int, string)>)
    ensures |choices| == |variants|
    ensures forall i, j :: 0 <= i < j < |choices| ==> StrLe(choices[i].1, choices[j].1)
    ensures forall v :: v in variants ==> (v.id, v.name) in choices
    ensures forall c :: c in choices ==> exists v :: v in variants && c == (v.id, v.name)
  {
    var sorted := VariantsByName(variants);
    VariantsByNameCorrect(variants);
    SameMembers(sorted, variants);
    var choices := seq(|sorted|, i requires 0 <= i < |sorted| => (sorted[i].id, sorted[i].name));
    assert forall i :: 0 <= i < |sorted| ==> choices[i] == (sorted[i].id, sorted[i].name);
    assert forall v :: v in variants ==> (v.id, v.name) in choices by {
      forall v | v in variants ensures (v.id, v.name) in choices {
        var i :| 0 <= i < |sorted| && sorted[i] == v;
        assert choices[i] == (v.id, v.name);
      }
    }
    choices
  }
}
