/** Search-as-you-type: the case-insensitive substring filter the list,
    search, favourites and top-picks screens each re-implement. They
    differ only in which fields they consult and in whether they trim the
    query; the filtering itself is defined once here. */
module Search {
  import opened JavaLang
  import opened JavaString
  import opened Clothing
  import opened Subsequence

  datatype Field = Name | Category | Fabric | Fit | Care

  function FieldOf(item: ClothingItem, f: Field): JString {
    match f
    case Name => item.name
    case Category => item.category
    case Fabric => item.fabric
    case Fit => item.fit
    case Care => item.care
  }

  /** The four screens that filter a list by a typed query. */
  datatype SearchKind =
    | CategoryList   // ListActivity.filterItems
    | SearchOnly     // ListActivity.performSearchOnly
    | Favourites     // FavouritesActivity.filterItems
    | TopPicks       // TopPicksActivity.filterTopPicks

  /** The fields each screen consults. */
  function Consulted(k: SearchKind): set<Field> {
    match k
    case CategoryList => {Name, Fabric, Fit}
    case SearchOnly => {Name, Fabric, Fit, Category}
    case Favourites => {Name, Category, Fabric, Fit}
    case TopPicks => {Name, Category, Fabric, Fit, Care}
  }

  /** The search-only path lower-cases the query but does not trim it;
      the three as-you-type filters lower-case and then trim. */
  function Needle(k: SearchKind, query: string): (n: string)
    ensures k == SearchOnly ==> n == ToLower(query)
    ensures k != SearchOnly ==> n == ToLower(Trim(query))
  {
    LowerTrimCommute(query);
    if k == SearchOnly then ToLower(query) else Trim(ToLower(query))
  }

  /** `f != null && f.toLowerCase().contains(needle)`. */
  predicate FieldMatches(v: JString, needle: string) {
    v.NonNull? && Contains(ToLower(v.value), needle)
  }

  /** The per-item test: some consulted field matches. */
  function Matches(item: ClothingItem, k: SearchKind, needle: string): (r: bool)
    ensures r ==> item.name.NonNull? || item.category.NonNull? || item.fabric.NonNull?
                  || item.fit.NonNull? || item.care.NonNull?
    ensures k != TopPicks ==>
              (r <==> || FieldMatches(item.name, needle)
                      || (k != CategoryList && FieldMatches(item.category, needle))
                      || FieldMatches(item.fabric, needle)
                      || FieldMatches(item.fit, needle))
  {
    || (Name in Consulted(k) && FieldMatches(item.name, needle))
    || (Category in Consulted(k) && FieldMatches(item.category, needle))
    || (Fabric in Consulted(k) && FieldMatches(item.fabric, needle))
    || (Fit in Consulted(k) && FieldMatches(item.fit, needle))
    || (Care in Consulted(k) && FieldMatches(item.care, needle))
  }

  /** An item matches iff one of the fields its screen consults matches. */
  lemma MatchesIffSomeConsultedField(item: ClothingItem, k: SearchKind, needle: string)
    ensures Matches(item, k, needle) <==>
            exists f :: f in Consulted(k) && FieldMatches(FieldOf(item, f), needle)
  {
    if Matches(item, k, needle) {
      if Name in Consulted(k) && FieldMatches(item.name, needle) {
        assert FieldMatches(FieldOf(item, Name), needle);
      } else if Category in Consulted(k) && FieldMatches(item.category, needle) {
        assert FieldMatches(FieldOf(item, Category), needle);
      } else if Fabric in Consulted(k) && FieldMatches(item.fabric, needle) {
        assert FieldMatches(FieldOf(item, Fabric), needle);
      } else if Fit in Consulted(k) && FieldMatches(item.fit, needle) {
        assert FieldMatches(FieldOf(item, Fit), needle);
      } else {
        assert FieldMatches(FieldOf(item, Care), needle);
      }
    }
  }

  /** The category list consults the name, the fabric and the fit only. */
  lemma CategoryListMatches(item: ClothingItem, needle: string)
    ensures Matches(item, CategoryList, needle) <==>
              FieldMatches(item.name, needle) || FieldMatches(item.fabric, needle) || FieldMatches(item.fit, needle)
  {
    assert Consulted(CategoryList) == {Name, Fabric, Fit};
  }

  /** The item with one text field replaced. */
  function WithField(item: ClothingItem, f: Field, v: JString): (r: ClothingItem)
    ensures FieldOf(r, f) == v
    ensures forall g :: g != f ==> FieldOf(r, g) == FieldOf(item, g)
  {
    match f
    case Name => item.(name := v)
    case Category => item.(category := v)
    case Fabric => item.(fabric := v)
    case Fit => item.(fit := v)
    case Care => item.(care := v)
  }

  /** A field a screen does not consult cannot change its verdict: the
      category list ignores category and care, the search-only path and
      the favourites filter ignore care. */
  lemma UnconsultedFieldIgnored(item: ClothingItem, k: SearchKind, f: Field, v: JString, needle: string)
    requires f !in Consulted(k)
    ensures Matches(WithField(item, f, v), k, needle) == Matches(item, k, needle)
  {
  }

  /** With an empty needle, a field matches iff it is non-null, because
      every string contains "". */
  lemma EmptyNeedleMatchesNonNull(item: ClothingItem, k: SearchKind)
    ensures Matches(item, k, "") <==> exists f :: f in Consulted(k) && FieldOf(item, f).NonNull?
  {
    forall f ensures FieldOf(item, f).NonNull? ==> FieldMatches(FieldOf(item, f), "") {
      if FieldOf(item, f).NonNull? {
        ContainsEmpty(ToLower(FieldOf(item, f).value));
      }
    }
    MatchesIffSomeConsultedField(item, k, "");
  }

  /** The screen's per-item test as a predicate value for `Filter`. */
  function Keep(k: SearchKind, needle: string): ClothingItem -> bool {
    item => Matches(item, k, needle)
  }

  /** Filtering `xs` for a screen keeps, in order, exactly the items one
      of whose consulted fields contains the needle. */
  lemma SearchFilterSpec(xs: seq<ClothingItem>, k: SearchKind, needle: string)
    ensures IsSubseq(Filter(xs, Keep(k, needle)), xs)
    ensures forall x :: x in Filter(xs, Keep(k, needle)) <==> x in xs && Matches(x, k, needle)
  {
    FilterMembers(xs, Keep(k, needle));
  }

  /** An empty needle keeps exactly the items that have some consulted
      field non-null. */
  lemma FilterEmptyNeedle(xs: seq<ClothingItem>, k: SearchKind)
    requires forall i :: 0 <= i < |xs| ==> exists f :: f in Consulted(k) && FieldOf(xs[i], f).NonNull?
    ensures Filter(xs, Keep(k, "")) == xs
  {
    forall i | 0 <= i < |xs| ensures Keep(k, "")(xs[i]) {
      EmptyNeedleMatchesNonNull(xs[i], k);
    }
    FilterKeepAll(xs, Keep(k, ""));
  }
}
