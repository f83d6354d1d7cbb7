/**
 * The sort keys the views use: sale date, listing date (newest first, no
 * date first as PostgreSQL sorts NULL in a descending order), variant name,
 * and (variant name, year) for registry rows. Each is a total preorder.
 */
module Orders {
  import opened Records
  import opened Sequences

  /** Ordering sales by sold date, oldest first. */
  predicate SoldNoLater(a: PriceRecord, b: PriceRecord) {
    DateLe(a.soldDate, b.soldDate)
  }

  /** Ordering listings newest first, with undated listings before all dated ones: `a` may come before `b`. */
  predicate ListedNoEarlier(a: Listing, b: Listing) {
    a.listedAt.None? || (b.listedAt.Some? && DateLe(b.listedAt.value, a.listedAt.value))
  }

  /** Ordering variants by name. */
  predicate NameNoLater(a: Variant, b: Variant) {
    StrLe(a.name, b.name)
  }

  /** A registry car joined with the name of its variant. */
  datatype RegistryRow = RegistryRow(car: RegistryCar, variantName: string)

  /** Ordering registry rows by variant name, then by year. */
  predicate RowNoLater(a: RegistryRow, b: RegistryRow) {
    if a.variantName == b.variantName then a.car.year <= b.car.year
    else StrLe(a.variantName, b.variantName)
  }

  lemma SoldNoLaterTotal()
    ensures TotalPreorder(SoldNoLater)
  {
  }

  lemma ListedNoEarlierTotal()
    ensures TotalPreorder(ListedNoEarlier)
  {
  }

  lemma NameNoLaterTotal()
    ensures TotalPreorder(NameNoLater)
  {
    forall a: Variant, b: Variant ensures NameNoLater(a, b) || NameNoLater(b, a) {
      StrLeTotal(a.name, b.name);
    }
    forall a: Variant, b: Variant, c: Variant | NameNoLater(a, b) && NameNoLater(b, c) ensures NameNoLater(a, c) {
      StrLeTransitive(a.name, b.name, c.name);
    }
  }

  lemma RowNoLaterTotal()
    ensures TotalPreorder(RowNoLater)
  {
    forall a: RegistryRow, b: RegistryRow ensures RowNoLater(a, b) || RowNoLater(b, a) {
      StrLeTotal(a.variantName, b.variantName);
    }
    forall a: RegistryRow, b: RegistryRow, c: RegistryRow | RowNoLater(a, b) && RowNoLater(b, c)
      ensures RowNoLater(a, c)
    {
      var x, y, z := a.variantName, b.variantName, c.variantName;
      if x != y && y != z {
        StrLeTransitive(x, y, z);
        if x == z {
          StrLeAntisymmetric(x, y);
        }
      }
    }
  }
}
