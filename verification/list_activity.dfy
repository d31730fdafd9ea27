/** The category list screen (ListActivity): the default category, the
    category load, the search-only load, the as-you-type filter, the
    empty-state rule and the like handler's guard. The adapter is a
    RowListItemAdapter, so what it shows is a copy of `filteredItems`. */
module ListActivity {
  import opened JavaLang
  import opened JavaString
  import opened Clothing
  import opened Subsequence
  import opened Search
  import opened Loading
  import opened Likes

  const DefaultCategory: string := "Shirts"

  /** A missing or empty category extra means "Shirts". */
  function SelectedCategory(extra: JString): (c: string)
    ensures extra.NonNull? && extra.value != "" ==> c == extra.value
    ensures extra.Null? || extra.value == "" ==> c == DefaultCategory
    ensures c != ""
  {
    if extra.NonNull? && extra.value != "" then extra.value else DefaultCategory
  }

  /** What `onCreate` starts: a search when a non-empty search query was
      passed, otherwise a category listing. */
  datatype StartMode = SearchMode(query: string) | CategoryMode(category: string)

  function Start(searchExtra: JString, categoryExtra: JString): (m: StartMode)
    ensures m.SearchMode? <==> searchExtra.NonNull? && searchExtra.value != ""
    ensures m.SearchMode? ==> m.query == searchExtra.value
    ensures m.CategoryMode? ==> m.category == SelectedCategory(categoryExtra)
  {
    if searchExtra.NonNull? && searchExtra.value != "" then SearchMode(searchExtra.value)
    else CategoryMode(SelectedCategory(categoryExtra))
  }

  /** The screen: the loaded items, the filtered items, what the adapter
      holds, and whether the empty-state text is showing. */
  datatype ListScreen = ListScreen(
    clothingItems: seq<ClothingItem>,
    filteredItems: seq<ClothingItem>,
    shown: seq<ClothingItem>,
    emptyState: bool)

  /** What `updateUI` guarantees: the empty state shows exactly when the
      filtered list is empty, and otherwise the adapter shows that list. */
  predicate UIConsistent(s: ListScreen) {
    && (s.emptyState <==> s.filteredItems == [])
    && (!s.emptyState ==> s.shown == s.filteredItems)
  }

  /** `updateUI`: show the empty state for an empty filtered list (the
      adapter keeps its old rows, hidden); else hand the list to the
      adapter. */
  function UpdateUI(s: ListScreen): (r: ListScreen)
    ensures UIConsistent(r)
    ensures r.clothingItems == s.clothingItems && r.filteredItems == s.filteredItems
    ensures s.filteredItems == [] ==> r.shown == s.shown
  {
    if s.filteredItems == [] then s.(emptyState := true)
    else s.(emptyState := false, shown := s.filteredItems)
  }

  /** `query == null || query.trim().isEmpty()`. */
  predicate BlankQuery(query: JString) {
    query.Null? || IsBlank(query.value)
  }

  /** The filtered list `filterItems` computes: everything for a blank
      query, otherwise the items whose name, fabric or fit contains the
      lower-cased, trimmed query. */
  function ListFilter(items: seq<ClothingItem>, query: JString): (r: seq<ClothingItem>)
    ensures BlankQuery(query) ==> r == items
    ensures !BlankQuery(query) ==> IsFilterOf(r, items, Keep(CategoryList, ToLower(Trim(query.value))))
  {
    if BlankQuery(query) then items
    else Filter(items, Keep(CategoryList, Needle(CategoryList, query.value)))
  }

  /** A non-blank query keeps an item iff its name, fabric or fit contains
      the needle; the category is not consulted. */
  lemma ListFilterKeeps(items: seq<ClothingItem>, query: string, x: ClothingItem)
    requires !IsBlank(query)
    ensures var needle := ToLower(Trim(query));
            x in ListFilter(items, NonNull(query)) <==>
              x in items && (FieldMatches(x.name, needle) || FieldMatches(x.fabric, needle)
                             || FieldMatches(x.fit, needle))
  {
    var needle := ToLower(Trim(query));
    assert ListFilter(items, NonNull(query)) == Filter(items, Keep(CategoryList, needle));
    SearchFilterSpec(items, CategoryList, needle);
    CategoryListMatches(x, needle);
  }

  /** `filterItems(query)` followed by `updateUI`. */
  function FilterItems(s: ListScreen, query: JString): (r: ListScreen)
    ensures r.clothingItems == s.clothingItems
    ensures r.filteredItems == ListFilter(s.clothingItems, query)
    ensures UIConsistent(r)
  {
    UpdateUI(s.(filteredItems := ListFilter(s.clothingItems, query)))
  }

  /** The category load's completion: on success the loaded items replace
      both lists; on failure the lists stay and the empty state shows. */
  function OnCategoryLoaded(s: ListScreen, result: QueryResult, uid: JString): (r: ListScreen)
    ensures result.QuerySuccess? ==>
              r.clothingItems == LoadItems(result.docs, uid) && r.filteredItems == r.clothingItems
              && UIConsistent(r)
    ensures result.QueryFailure? ==>
              r.emptyState && r.clothingItems == s.clothingItems && r.filteredItems == s.filteredItems
  {
    match result
    case QuerySuccess(docs) =>
      var items := LoadItems(docs, uid);
      UpdateUI(s.(clothingItems := items, filteredItems := items))
    case QueryFailure(_) => s.(emptyState := true)
  }

  /** The items `performSearchOnly` examines: each document that
      deserialised, in query order, with its document id set. The search
      path sets no liked flag. */
  function IdStamped(docs: seq<Doc>): (r: seq<ClothingItem>)
    ensures |r| == |KeptIndices(docs)|
    ensures forall i :: 0 <= i < |r| ==>
              r[i] == SetId(docs[KeptIndices(docs)[i]].item.value, NonNull(docs[KeptIndices(docs)[i]].docId))
    decreases |docs|
  {
    if docs == [] then []
    else
      var n := |docs| - 1;
      var rest := IdStamped(docs[..n]);
      var ix := KeptIndices(docs[..n]);
      assert KeptIndices(docs) == if docs[n].item.NonNull? then ix + [n] else ix;
      assert forall a :: 0 <= a < |ix| ==> docs[..n][ix[a]] == docs[ix[a]];
      if docs[n].item.NonNull? then rest + [SetId(docs[n].item.value, NonNull(docs[n].docId))] else rest
  }

  /** The items `performSearchOnly` keeps: the id-stamped documents whose
      name, fabric, fit or category contains the lower-cased (untrimmed)
      query, in query order. */
  function SearchResults(docs: seq<Doc>, query: string): (r: seq<ClothingItem>)
    ensures IsSubseq(r, IdStamped(docs))
    ensures forall i :: 0 <= i < |r| ==>
              r[i].id.NonNull? && (exists j :: 0 <= j < |docs| && r[i].id.value == docs[j].docId)
    ensures forall i :: 0 <= i < |r| ==> Matches(r[i], SearchOnly, ToLower(query))
  {
    var stamped := IdStamped(docs);
    var r := Filter(stamped, Keep(SearchOnly, Needle(SearchOnly, query)));
    FilterMembers(stamped, Keep(SearchOnly, Needle(SearchOnly, query)));
    StampedIds(docs);
    assert forall i :: 0 <= i < |r| ==> r[i] in stamped;
    r
  }

  /** Each id-stamped item carries the id of one of the documents. */
  lemma {:induction false} StampedIds(docs: seq<Doc>)
    ensures forall x :: x in IdStamped(docs) ==>
              x.id.NonNull? && exists j :: 0 <= j < |docs| && x.id.value == docs[j].docId
  {
    var stamped := IdStamped(docs);
    forall x | x in stamped
      ensures x.id.NonNull? && exists j :: 0 <= j < |docs| && x.id.value == docs[j].docId
    {
      var k :| 0 <= k < |stamped| && stamped[k] == x;
      assert x.id.value == docs[KeptIndices(docs)[k]].docId;
    }
  }

  /** The id is not a search field. */
  lemma MatchesIgnoresId(item: ClothingItem, id: JString, needle: string)
    ensures Matches(SetId(item, id), SearchOnly, needle) == Matches(item, SearchOnly, needle)
  {
    assert SetId(item, id).name == item.name && SetId(item, id).fabric == item.fabric;
    assert SetId(item, id).fit == item.fit && SetId(item, id).category == item.category;
  }

  /** Every search result is a matching document's item with that
      document's own id. */
  lemma SearchResultSource(docs: seq<Doc>, query: string, x: ClothingItem) returns (j: nat)
    requires x in SearchResults(docs, query)
    ensures j < |docs| && docs[j].item.NonNull?
    ensures x == SetId(docs[j].item.value, NonNull(docs[j].docId))
    ensures Matches(docs[j].item.value, SearchOnly, ToLower(query))
  {
    var stamped := IdStamped(docs);
    FilterMembers(stamped, Keep(SearchOnly, ToLower(query)));
    assert x in stamped && Matches(x, SearchOnly, ToLower(query));
    var i :| 0 <= i < |stamped| && stamped[i] == x;
    j := KeptIndices(docs)[i];
    MatchesIgnoresId(docs[j].item.value, NonNull(docs[j].docId), ToLower(query));
  }

  /** Every matching document's item, with its id, is a search result. */
  lemma SearchResultComplete(docs: seq<Doc>, query: string, j: nat)
    requires j < |docs| && docs[j].item.NonNull?
    requires Matches(docs[j].item.value, SearchOnly, ToLower(query))
    ensures SetId(docs[j].item.value, NonNull(docs[j].docId)) in SearchResults(docs, query)
  {
    var stamped := IdStamped(docs);
    var x := SetId(docs[j].item.value, NonNull(docs[j].docId));
    var ix := KeptIndices(docs);
    var i :| 0 <= i < |ix| && ix[i] == j;
    assert stamped[i] == x;
    MatchesIgnoresId(docs[j].item.value, NonNull(docs[j].docId), ToLower(query));
    FilterMembers(stamped, Keep(SearchOnly, ToLower(query)));
  }

  /** The search-only load's completion, as written: both lists are
      cleared, only the filtered list is refilled, then `updateUI`. */
  function OnSearchLoaded(s: ListScreen, result: QueryResult, query: string): (r: ListScreen)
    ensures result.QuerySuccess? ==>
              r.clothingItems == [] && r.filteredItems == SearchResults(result.docs, query)
              && UIConsistent(r)
    ensures result.QueryFailure? ==>
              r.emptyState && r.clothingItems == s.clothingItems && r.filteredItems == s.filteredItems
  {
    match result
    case QuerySuccess(docs) =>
      UpdateUI(s.(clothingItems := [], filteredItems := SearchResults(docs, query)))
    case QueryFailure(_) => s.(emptyState := true)
  }

  /** As written, once a search has loaded, any edit of the search text
      (which runs `filterItems`) empties the list and shows the empty
      state, even when the search found items. */
  lemma SearchThenEditShowsNothing(s: ListScreen, docs: seq<Doc>, query: string, edited: JString)
    ensures var r := FilterItems(OnSearchLoaded(s, QuerySuccess(docs), query), edited);
            r.filteredItems == [] && r.emptyState
  {
  }

  /** The search-only load with the loaded list kept: the search results
      become the list that later edits filter. */
  function OnSearchLoadedKeepingResults(s: ListScreen, result: QueryResult, query: string): (r: ListScreen)
    ensures result.QuerySuccess? ==>
              r.clothingItems == SearchResults(result.docs, query) && r.filteredItems == r.clothingItems
              && UIConsistent(r)
    ensures result.QueryFailure? ==>
              r.emptyState && r.clothingItems == s.clothingItems && r.filteredItems == s.filteredItems
  {
    match result
    case QuerySuccess(docs) =>
      var found := SearchResults(docs, query);
      UpdateUI(s.(clothingItems := found, filteredItems := found))
    case QueryFailure(_) => s.(emptyState := true)
  }

  /** With the results kept, clearing the search text shows every result
      again, and a further query narrows within the results. */
  lemma SearchThenEditFiltersResults(s: ListScreen, docs: seq<Doc>, query: string, edited: JString)
    ensures var found := SearchResults(docs, query);
            var r := FilterItems(OnSearchLoadedKeepingResults(s, QuerySuccess(docs), query), edited);
            && (BlankQuery(edited) ==> r.filteredItems == found && (r.emptyState <==> found == []))
            && IsSubseq(r.filteredItems, found)
  {
    var found := SearchResults(docs, query);
    if BlankQuery(edited) {
      SubseqRefl(found);
    }
  }

  /** `onItemLike` on this screen: no user or a `null`/empty id means no
      write. */
  function OnItemLike(uid: JString, item: ClothingItem, isLiked: bool): (w: LikeWrite)
    ensures w.NoWrite? <==> uid.Null? || item.id.Null? || item.id.value == ""
    ensures w.UpdateLikedUsers? ==> w.docId == item.id.value
                                    && w.op == (if isLiked then ArrayUnion(uid.value) else ArrayRemove(uid.value))
  {
    LikeWriteFor(RejectNullOrEmpty, uid, item, isLiked)
  }
}
