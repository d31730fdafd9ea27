/** The favourites screen (FavouritesActivity). Favourites live in the
    device's "LikedPrefs" preferences as item id -> `true`; the screen
    fetches each such item, shows it, filters the shown list as the user
    types, and an unlike removes the id from the preferences and the item
    from both lists.

    The adapter is an ItemAdapter built on `filteredList`. The screen
    record is stated with the snapshot `updateItems`
    (`Adapters.UpdateItemsSnapshot`), under which the adapter renders
    `filtered` itself; the code as written empties `filteredList` on every
    fetch and every search (`FetchAsWrittenEmptiesFiltered`,
    `FilterAsWrittenEmptiesFiltered`). */
module FavouritesActivity {
  import opened JavaLang
  import opened JavaString
  import opened Clothing
  import opened Subsequence
  import opened Search
  import opened Adapters

  /** A stored preference: a boolean, or a value of another type. */
  datatype PrefValue = BoolPref(b: bool) | OtherPref

  type Prefs = map<string, PrefValue>

  /** The ids whose preference is the boolean `true`. */
  function FavouriteIds(prefs: Prefs): set<string> {
    set k | k in prefs && prefs[k] == BoolPref(true)
  }

  /** The loop over `prefs.getAll().entrySet()`: walking the keys in the
      map's iteration order `order`, collect those whose value is the
      boolean `true`. Each stored favourite is collected exactly once. */
  method CollectFavouriteIds(prefs: Prefs, order: seq<string>) returns (ids: seq<string>)
    requires forall k :: k in prefs <==> k in order
    requires forall i, j :: 0 <= i < j < |order| ==> order[i] != order[j]
    ensures forall k :: k in ids <==> k in prefs && prefs[k] == BoolPref(true)
    ensures forall i, j :: 0 <= i < j < |ids| ==> ids[i] != ids[j]
    ensures ids == [] <==> FavouriteIds(prefs) == {}
  {
    ids := [];
    var n := 0;
    while n < |order|
      invariant 0 <= n <= |order|
      invariant forall k :: k in ids <==> k in order[..n] && k in prefs && prefs[k] == BoolPref(true)
      invariant forall i, j :: 0 <= i < j < |ids| ==> ids[i] != ids[j]
    {
      var key := order[n];
      assert order[..n + 1] == order[..n] + [key];
      assert key !in order[..n];
      if prefs[key] == BoolPref(true) {
        ids := ids + [key];
      }
      n := n + 1;
    }
    assert order[..n] == order;
    if ids != [] {
      assert ids[0] in FavouriteIds(prefs);
    }
  }

  datatype FavScreen = FavScreen(favourites: seq<ClothingItem>, filtered: seq<ClothingItem>)

  // ---------------------------------------------------------------------
  // The screen's invariant

  /** No two items share an id. */
  predicate UniqueIds(xs: seq<ClothingItem>) {
    forall i, j :: 0 <= i < j < |xs| ==> xs[i].id != xs[j].id
  }

  /** An item the screen may list: it has an id, the id is a stored
      favourite, and it is flagged as liked. */
  predicate Listed(prefs: Prefs, x: ClothingItem) {
    x.id.NonNull? && x.id.value in FavouriteIds(prefs) && x.likedByCurrentUser
  }

  /** What loading, fetching and filtering keep true: every favourite is a
      stored favourite, once, and the shown list is drawn from the
      favourites in order. */
  ghost predicate Inv(s: FavScreen, prefs: Prefs) {
    && (forall x :: x in s.favourites ==> Listed(prefs, x))
    && UniqueIds(s.favourites)
    && IsSubseq(s.filtered, s.favourites)
  }

  /** A subsequence of a list with distinct ids has distinct ids. */
  lemma {:induction false} UniqueIdsSubseq(sub: seq<ClothingItem>, xs: seq<ClothingItem>)
    requires IsSubseq(sub, xs) && UniqueIds(xs)
    ensures UniqueIds(sub)
    decreases |xs|
  {
    if sub != [] {
      var n := |xs| - 1;
      var ys := xs[..n];
      assert UniqueIds(ys) by {
        forall i, j | 0 <= i < j < |ys| ensures ys[i].id != ys[j].id {
          assert ys[i] == xs[i] && ys[j] == xs[j];
        }
      }
      if sub[|sub| - 1] == xs[n] && IsSubseq(sub[..|sub| - 1], ys) {
        var front := sub[..|sub| - 1];
        UniqueIdsSubseq(front, ys);
        SubseqMultisetLe(front, ys);
        forall i, j | 0 <= i < j < |sub| ensures sub[i].id != sub[j].id {
          if j == |sub| - 1 {
            assert sub[i] == front[i];
            assert front[i] in multiset(ys);
            var k :| 0 <= k < |ys| && ys[k] == front[i];
            assert xs[k] == ys[k];
          } else {
            assert sub[i] == front[i] && sub[j] == front[j];
          }
        }
      } else {
        UniqueIdsSubseq(sub, ys);
      }
    }
  }

  // ---------------------------------------------------------------------
  // Loading

  /** `loadFavourites`: with no stored favourite only a toast shows and
      nothing changes; otherwise both lists are cleared and every stored
      favourite is fetched. */
  function LoadFavourites(s: FavScreen, prefs: Prefs): (r: (FavScreen, set<string>))
    ensures r.1 == FavouriteIds(prefs)
    ensures r.1 == {} ==> r.0 == s
    ensures r.1 != {} ==> r.0.favourites == [] && r.0.filtered == []
  {
    var ids := FavouriteIds(prefs);
    if ids == {} then (s, ids) else (FavScreen([], []), ids)
  }

  /** A load that fetches anything starts from a state that satisfies the
      invariant. */
  lemma LoadEstablishesInv(s: FavScreen, prefs: Prefs)
    requires FavouriteIds(prefs) != {}
    ensures Inv(LoadFavourites(s, prefs).0, prefs)
  {
  }

  /** Corrected (snapshot `updateItems`). One fetch completing: a
      document that deserialises is given its id, flagged as liked and
      appended to both lists (whatever is typed in the search bar); a
      `null` one changes nothing. */
  function OnFetched(s: FavScreen, docId: string, item: Nullable<ClothingItem>): (r: FavScreen)
    ensures item.Null? ==> r == s
    ensures item.NonNull? ==>
              && |r.favourites| == |s.favourites| + 1 && r.favourites[..|s.favourites|] == s.favourites
              && |r.filtered| == |s.filtered| + 1 && r.filtered[..|s.filtered|] == s.filtered
              && r.favourites[|s.favourites|] == r.filtered[|s.filtered|]
              && r.favourites[|s.favourites|].id == NonNull(docId)
              && r.favourites[|s.favourites|].likedByCurrentUser
              && r.favourites[|s.favourites|].(id := item.value.id, likedByCurrentUser := item.value.likedByCurrentUser) == item.value
  {
    match item
    case Null => s
    case NonNull(it) =>
      var fetched := SetLiked(SetId(it, NonNull(docId)), true);
      FavScreen(s.favourites + [fetched], s.filtered + [fetched])
  }

  /** A fetch of a stored favourite not yet listed keeps the invariant. */
  lemma FetchPreservesInv(s: FavScreen, prefs: Prefs, docId: string, item: Nullable<ClothingItem>)
    requires Inv(s, prefs)
    requires docId in FavouriteIds(prefs)
    requires forall x :: x in s.favourites ==> x.id != NonNull(docId)
    ensures Inv(OnFetched(s, docId, item), prefs)
  {
    if item.NonNull? {
      var r := OnFetched(s, docId, item);
      var fetched := r.favourites[|s.favourites|];
      assert r.favourites == s.favourites + [fetched];
      assert r.filtered == s.filtered + [fetched];
      assert r.filtered[..|r.filtered| - 1] == s.filtered;
      assert r.favourites[..|r.favourites| - 1] == s.favourites;
      forall i, j | 0 <= i < j < |r.favourites| ensures r.favourites[i].id != r.favourites[j].id {
        if j == |s.favourites| {
          assert r.favourites[i] == s.favourites[i];
          assert s.favourites[i] in s.favourites;
        } else {
          assert r.favourites[i] == s.favourites[i] && r.favourites[j] == s.favourites[j];
        }
      }
    }
  }

  // ---------------------------------------------------------------------
  // Searching

  /** Corrected (snapshot `updateItems`). `filterItems(query)`: the
      favourites whose name, category, fabric or fit contains the
      lower-cased, trimmed query. */
  function FilterFavourites(s: FavScreen, query: string): (r: FavScreen)
    ensures r.favourites == s.favourites
    ensures IsFilterOf(r.filtered, s.favourites, Keep(Favourites, ToLower(Trim(query))))
  {
    s.(filtered := Filter(s.favourites, Keep(Favourites, Needle(Favourites, query))))
  }

  /** Searching keeps the invariant, and shows exactly the matching
      favourites. */
  lemma FilterPreservesInv(s: FavScreen, prefs: Prefs, query: string)
    requires Inv(s, prefs)
    ensures Inv(FilterFavourites(s, query), prefs)
    ensures forall x :: x in FilterFavourites(s, query).filtered <==>
              x in s.favourites && Matches(x, Favourites, ToLower(Trim(query)))
  {
    SearchFilterSpec(s.favourites, Favourites, ToLower(Trim(query)));
  }

  /** A blank query keeps exactly the favourites with at least one of
      name, category, fabric and fit non-null. */
  lemma BlankQueryKeepsItemsWithText(s: FavScreen, query: string, x: ClothingItem)
    requires IsBlank(query)
    ensures x in FilterFavourites(s, query).filtered <==>
              x in s.favourites && exists f :: f in Consulted(Favourites) && FieldOf(x, f).NonNull?
  {
    TrimEmptyIffBlank(query);
    SearchFilterSpec(s.favourites, Favourites, "");
    EmptyNeedleMatchesNonNull(x, Favourites);
  }

  // ---------------------------------------------------------------------
  // The screen as written

  /** As written, the adapter is an ItemAdapter built on `filteredList`
      itself, so the `adapter.updateItems(filteredList)` after each fetch
      empties `filteredList`: the favourite stays in `favouritesList` but
      no row shows. */
  lemma FetchAsWrittenEmptiesFiltered(h: Heap, favRef: Ref, filteredRef: Ref, s: FavScreen,
                                      docId: string, item: Nullable<ClothingItem>)
    requires favRef in h && filteredRef in h && favRef != filteredRef && item.NonNull?
    ensures var f := OnFetched(s, docId, item);
            var h1 := h[favRef := f.favourites][filteredRef := f.filtered];
            var a := NewItemAdapter(NonNull(filteredRef));
            var r := UpdateItems(h1, a, NonNull(filteredRef));
            && r.NonNull? && r.value[favRef] == f.favourites && r.value[filteredRef] == []
            && GetItemCount(r.value, a) == 0
  {
  }

  /** As written, `filterItems` ends with the same self-update, so every
      search leaves `filteredList` and the adapter empty. */
  lemma FilterAsWrittenEmptiesFiltered(h: Heap, favRef: Ref, filteredRef: Ref, s: FavScreen, query: string)
    requires favRef in h && filteredRef in h && favRef != filteredRef
    ensures var f := FilterFavourites(s, query);
            var h1 := h[favRef := f.favourites][filteredRef := f.filtered];
            var a := NewItemAdapter(NonNull(filteredRef));
            var r := UpdateItems(h1, a, NonNull(filteredRef));
            && r.NonNull? && r.value[favRef] == s.favourites && r.value[filteredRef] == []
            && GetItemCount(r.value, a) == 0
  {
  }

  // ---------------------------------------------------------------------
  // Unliking

  /** The outcome of a handler that may throw. */
  datatype LikeOutcome = Done(screen: FavScreen, prefs: Prefs) | Crash

  /** `onItemLike(item, position, isLiked)` as written: a like stores the
      id; an unlike removes the id and then removes `position` from
      `favouritesList` and from `filteredList`. A position past either
      list's end throws, and then the preference edit is never applied. */
  function OnItemLikeAsWritten(s: FavScreen, prefs: Prefs, item: ClothingItem, position: nat, isLiked: bool): (o: LikeOutcome)
    requires item.id.NonNull?
    ensures isLiked ==> o == Done(s, prefs[item.id.value := BoolPref(true)])
    ensures !isLiked ==> (o.Crash? <==> position >= |s.favourites| || position >= |s.filtered|)
    ensures !isLiked && o.Done? ==>
              && o.prefs == prefs - {item.id.value}
              && o.screen.favourites == RemoveAt(s.favourites, position)
              && o.screen.filtered == RemoveAt(s.filtered, position)
  {
    if isLiked then Done(s, prefs[item.id.value := BoolPref(true)])
    else if position >= |s.favourites| || position >= |s.filtered| then Crash
    else Done(FavScreen(RemoveAt(s.favourites, position), RemoveAt(s.filtered, position)),
              prefs - {item.id.value})
  }

  /** The test that keeps every item except those with id `id`. */
  function NotId(id: string): ClothingItem -> bool {
    (x: ClothingItem) => x.id != NonNull(id)
  }

  /** `onItemLike` removing by identity (`favouritesList.remove(item)`,
      `filteredList.remove(item)`): an unlike takes out the item with that
      id wherever it sits in each list. */
  function OnItemLikeById(s: FavScreen, prefs: Prefs, item: ClothingItem, isLiked: bool): (r: (FavScreen, Prefs))
    requires item.id.NonNull?
    ensures isLiked ==> r == (s, prefs[item.id.value := BoolPref(true)])
    ensures !isLiked ==>
              && r.1 == prefs - {item.id.value}
              && IsFilterOf(r.0.favourites, s.favourites, NotId(item.id.value))
              && IsFilterOf(r.0.filtered, s.filtered, NotId(item.id.value))
  {
    if isLiked then (s, prefs[item.id.value := BoolPref(true)])
    else
      var keep := NotId(item.id.value);
      (FavScreen(Filter(s.favourites, keep), Filter(s.filtered, keep)), prefs - {item.id.value})
  }

  /** Removing by identity keeps the invariant, and afterwards neither list
      holds the unliked id. */
  lemma ByIdPreservesInv(s: FavScreen, prefs: Prefs, item: ClothingItem, isLiked: bool)
    requires item.id.NonNull?
    requires Inv(s, prefs)
    ensures Inv(OnItemLikeById(s, prefs, item, isLiked).0, OnItemLikeById(s, prefs, item, isLiked).1)
    ensures !isLiked ==> forall x :: x in OnItemLikeById(s, prefs, item, isLiked).0.favourites ==> x.id != item.id
  {
    var id := item.id.value;
    var (r, p) := OnItemLikeById(s, prefs, item, isLiked);
    if isLiked {
      assert FavouriteIds(prefs) <= FavouriteIds(p);
    } else {
      var keep := NotId(id);
      FilterMembers(s.favourites, keep);
      forall x | x in r.favourites ensures Listed(p, x) {
        assert x in s.favourites && x.id != NonNull(id);
      }
      UniqueIdsSubseq(r.favourites, s.favourites);
      SubseqFilterMono(s.filtered, s.favourites, keep);
    }
  }

  /** While nothing is typed the two lists coincide, and then removing by
      position removes exactly the tapped item: the handler as written
      agrees with the by-identity one. */
  lemma AsWrittenAgreesWhenUnfiltered(s: FavScreen, prefs: Prefs, position: nat)
    requires Inv(s, prefs)
    requires s.filtered == s.favourites && position < |s.filtered|
    ensures var item := s.filtered[position];
            && item.id.NonNull?
            && OnItemLikeAsWritten(s, prefs, item, position, false)
              == Done(OnItemLikeById(s, prefs, item, false).0, OnItemLikeById(s, prefs, item, false).1)
  {
    var item := s.filtered[position];
    assert item in s.favourites;
    assert Listed(prefs, item);
    var keep := NotId(item.id.value);
    forall i | 0 <= i < |s.favourites| && i != position ensures keep(s.favourites[i]) {
      if i < position {
      } else {
      }
    }
    FilterDropsOne(s.favourites, keep, position);
  }

  /** As written, unliking while a search is active removes the wrong
      favourite. Two favourites A and B, the search showing only B, and
      B unliked at its shown position 0: A is dropped from the
      favourites although still stored, and B stays listed although its
      preference is gone. */
  lemma UnlikeDuringSearchRemovesWrongItem()
    ensures var a := NewDefault().(id := NonNull("a"), likedByCurrentUser := true);
            var b := NewDefault().(id := NonNull("b"), likedByCurrentUser := true);
            var prefs := map["a" := BoolPref(true), "b" := BoolPref(true)];
            var s := FavScreen([a, b], [b]);
            var o := OnItemLikeAsWritten(s, prefs, b, 0, false);
            && Inv(s, prefs)
            && o == Done(FavScreen([b], []), map["a" := BoolPref(true)])
            && a !in o.screen.favourites && "a" in FavouriteIds(o.prefs)
            && b in o.screen.favourites && "b" !in FavouriteIds(o.prefs)
            && !Inv(o.screen, o.prefs)
  {
    var a := NewDefault().(id := NonNull("a"), likedByCurrentUser := true);
    var b := NewDefault().(id := NonNull("b"), likedByCurrentUser := true);
    var prefs := map["a" := BoolPref(true), "b" := BoolPref(true)];
    var s := FavScreen([a, b], [b]);
    assert FavouriteIds(prefs) == {"a", "b"};
    assert [a, b][1..] == [b];
    assert IsSubseq([b], [a, b]) by {
      assert [a, b][..1] == [a];
      assert [b][..0] == [];
    }
    assert RemoveAt([a, b], 0) == [b];
    assert RemoveAt([b], 0) == [];
    var post := prefs - {"b"};
    assert post == map["a" := BoolPref(true)];
    assert FavouriteIds(post) == {"a"};
    assert !Listed(post, b);
  }
}
