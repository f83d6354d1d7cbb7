/**
 * The persisted entities: model variants, registry cars, listings and price
 * records, with the calendar dates they carry. Nullable text columns are
 * modelled as strings in which "" stands for a missing value.
 */
module Records {
  import opened Results

  /** A calendar date, compared lexicographically as Python's `date` is. */
  datatype Date = Date(year: int, month: int, day: int)

  predicate DateLe(a: Date, b: Date) {
    a.year < b.year || (a.year == b.year && (a.month < b.month || (a.month == b.month && a.day <= b.day)))
  }

  /** Sales on or after this date count as "recent" in the market summary. */
  const RecentCutoff := Date(2025, 1, 1)

  datatype Variant = Variant(
    id: int,
    name: string,
    yearStart: int,
    yearEnd: int,
    engineCc: int,
    bhp: Option<int>,
    description: string,
    estimatedSurvivors: Option<int>)

  datatype RegistryCar = RegistryCar(
    id: int,
    variantId: int,
    year: int,
    colour: string,
    chassisPrefix: string,
    locationRegion: string,
    condition: string,
    motStatus: string,
    motExpiry: Option<Date>,
    notes: string,
    source: string)

  datatype Listing = Listing(
    id: int,
    variantId: int,
    title: string,
    year: Option<int>,
    priceGbp: int,
    mileage: Option<int>,
    condition: string,
    colour: string,
    location: string,
    sourceSite: string,
    sourceUrl: string,
    description: string,
    isSold: bool,
    listedAt: Option<Date>,
    soldAt: Option<Date>)

  datatype PriceRecord = PriceRecord(
    id: int,
    variantId: int,
    priceGbp: int,
    yearOfCar: Option<int>,
    condition: string,
    source: string,
    soldDate: Date,
    notes: string)

  /** The variant a foreign key refers to; ids are the table's primary key. */
  function Lookup(variants: seq<Variant>, id: int): (r: Option<Variant>)
    ensures r.Some? ==> r.value in variants && r.value.id == id
    ensures r.None? <==> forall v :: v in variants ==> v.id != id
  {
    if variants == [] then None
    else if variants[0].id == id then Some(variants[0])
    else Lookup(variants[1..], id)
  }

  predicate UniqueVariantIds(variants: seq<Variant>) {
    forall i, j :: 0 <= i < j < |variants| ==> variants[i].id != variants[j].id
  }

  function PricesOf(records: seq<PriceRecord>): (ps: seq<int>)
    ensures |ps| == |records|
    ensures forall i :: 0 <= i < |records| ==> ps[i] == records[i].priceGbp
  {
    if records == [] then [] else [records[0].priceGbp] + PricesOf(records[1..])
  }

  lemma {:induction false} PricesOfConcat(a: seq<PriceRecord>, b: seq<PriceRecord>)
    ensures PricesOf(a + b) == PricesOf(a) + PricesOf(b)
  {
  }

  predicate NonNegativePrices(records: seq<PriceRecord>) {
    forall r :: r in records ==> r.priceGbp >= 0
  }
}
