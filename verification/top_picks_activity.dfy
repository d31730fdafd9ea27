/** The top-picks screen (TopPicksActivity): the loaded picks, the
    five-field search over them, the empty-state rule and the like
    guard. `shown` is what the adapter renders, with `updateItems` taken
    in its snapshot form (see `Adapters.UpdateItemsSnapshot`); the screen
    as written, with ItemAdapter sharing `filteredList`, is
    `LoadAsWrittenEmptiesFilteredList` and `FilterTopPicksAsWritten`. */
module TopPicksActivity {
  import opened JavaLang
  import opened JavaString
  import opened Clothing
  import opened Subsequence
  import opened Search
  import opened Adapters
  import opened Likes
  import opened TopPicksManager

  datatype TopPicksScreen = TopPicksScreen(
    topPicks: seq<ClothingItem>,
    filtered: seq<ClothingItem>,
    shown: seq<ClothingItem>,
    emptyState: bool)

  /** Corrected (snapshot `updateItems`). The manager's callback
      arriving: on success both lists and the adapter take the picks (the
      empty-state view is not touched); on error only a toast shows. */
  function OnCallback(s: TopPicksScreen, c: TopPicksCallback): (r: TopPicksScreen)
    ensures c.OnTopPicksLoaded? ==>
              r.topPicks == c.items && r.filtered == c.items && r.shown == c.items
              && r.emptyState == s.emptyState
    ensures c.OnError? ==> r == s
  {
    match c
    case OnTopPicksLoaded(items) => s.(topPicks := items, filtered := items, shown := items)
    case OnError(_) => s
  }

  /** Corrected (snapshot `updateItems`). `filterTopPicks(query)`: the
      picks whose name, category, fabric, fit or care contains the
      lower-cased, trimmed query; the adapter shows them and the empty
      state shows exactly when there are none. */
  function FilterTopPicks(s: TopPicksScreen, query: string): (r: TopPicksScreen)
    ensures r.topPicks == s.topPicks
    ensures IsFilterOf(r.filtered, s.topPicks, Keep(TopPicks, ToLower(Trim(query))))
    ensures r.shown == r.filtered
    ensures r.emptyState <==> r.filtered == []
  {
    var filtered := Filter(s.topPicks, Keep(TopPicks, Needle(TopPicks, query)));
    s.(filtered := filtered, shown := filtered, emptyState := filtered == [])
  }

  /** A blank query does not restore the whole list: it drops exactly the
      picks whose five text fields are all `null`. */
  lemma BlankQueryKeepsItemsWithText(s: TopPicksScreen, query: string, x: ClothingItem)
    requires IsBlank(query)
    ensures x in FilterTopPicks(s, query).filtered <==>
              x in s.topPicks && exists f :: f in Consulted(TopPicks) && FieldOf(x, f).NonNull?
  {
    TrimEmptyIffBlank(query);
    assert ToLower(Trim(query)) == "";
    SearchFilterSpec(s.topPicks, TopPicks, "");
    EmptyNeedleMatchesNonNull(x, TopPicks);
  }

  /** Searching never shows an item that was not a top pick, and shows
      every pick that matches. */
  lemma SearchStaysWithinPicks(s: TopPicksScreen, query: string)
    ensures IsSubseq(FilterTopPicks(s, query).filtered, s.topPicks)
    ensures forall x :: x in FilterTopPicks(s, query).filtered <==>
              x in s.topPicks && Matches(x, TopPicks, ToLower(Trim(query)))
  {
    SearchFilterSpec(s.topPicks, TopPicks, ToLower(Trim(query)));
  }

  /** `onItemLike`: writes unless there is no user or the id is `null`. */
  function OnItemLike(uid: JString, item: ClothingItem, isLiked: bool): (w: LikeWrite)
    ensures w.NoWrite? <==> uid.Null? || item.id.Null?
    ensures w.UpdateLikedUsers? ==> w.docId == item.id.value
                                    && w.op == (if isLiked then ArrayUnion(uid.value) else ArrayRemove(uid.value))
  {
    LikeWriteFor(RejectNull, uid, item, isLiked)
  }

  /** As written, the adapter is an ItemAdapter built on `filteredList`
      itself, so the load's `adapter.updateItems(filteredList)` empties
      `filteredList`: the picks stay in `topPicksList` but nothing shows. */
  lemma LoadAsWrittenEmptiesFilteredList(h: Heap, topRef: Ref, filteredRef: Ref, items: seq<ClothingItem>)
    requires topRef in h && filteredRef in h && topRef != filteredRef
    ensures var h1 := h[topRef := items][filteredRef := items];
            var adapter := NewItemAdapter(NonNull(filteredRef));
            var r := UpdateItems(h1, adapter, NonNull(filteredRef));
            && r.NonNull? && r.value[topRef] == items && r.value[filteredRef] == []
            && GetItemCount(r.value, adapter) == 0
  {
  }

  /** `filterTopPicks(query)` as written: the loop fills `filteredList`,
      `adapter.updateItems(filteredList)` on the ItemAdapter that shares
      `filteredList` empties it again, and the empty-state test then reads
      the emptied list. Returns the heap and whether the empty state
      shows. */
  function FilterTopPicksAsWritten(h: Heap, filteredRef: Ref, topPicks: seq<ClothingItem>, query: string): (r: (Heap, bool))
    requires filteredRef in h
    ensures r.0.Keys == h.Keys && r.0[filteredRef] == []
    ensures forall q :: q in h && q != filteredRef ==> r.0[q] == h[q]
    ensures r.1
  {
    var h1 := h[filteredRef := Filter(topPicks, Keep(TopPicks, Needle(TopPicks, query)))];
    var a := NewItemAdapter(NonNull(filteredRef));
    assert a.items == NonNull(filteredRef) && h1.Keys == h.Keys;
    var after := UpdateItems(h1, a, NonNull(filteredRef));
    (after.value, after.value[filteredRef] == [])
  }

  /** As written, every search shows no rows and the empty state, even
      for a query that the corrected screen answers with matches. */
  lemma FilterAsWrittenShowsNothing(h: Heap, filteredRef: Ref, s: TopPicksScreen, query: string)
    requires filteredRef in h
    ensures var (h2, emptyState) := FilterTopPicksAsWritten(h, filteredRef, s.topPicks, query);
            && emptyState
            && GetItemCount(h2, NewItemAdapter(NonNull(filteredRef))) == 0
            && (FilterTopPicks(s, query).filtered != [] ==> !FilterTopPicks(s, query).emptyState)
  {
  }

  /** With the snapshot `updateItems`, the same steps leave the adapter
      showing every pick, which is what `OnCallback` states. */
  lemma LoadWithSnapshotShowsPicks(h: Heap, topRef: Ref, filteredRef: Ref, items: seq<ClothingItem>)
    requires topRef in h && filteredRef in h && topRef != filteredRef
    ensures var h1 := h[topRef := items][filteredRef := items];
            var adapter := NewItemAdapter(NonNull(filteredRef));
            var r := UpdateItemsSnapshot(h1, adapter, NonNull(filteredRef));
            && r.NonNull? && r.value[topRef] == items && r.value[filteredRef] == items
            && GetItemCount(r.value, adapter) == |items|
  {
  }
}
