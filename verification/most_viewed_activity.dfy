/** The most-viewed screen (MostViewedActivity): the ten most viewed
    items, loaded with the shared document loop, and the like guard.
    `shown` is what the adapter renders with the snapshot `updateItems`;
    the screen as written is `LoadAsWrittenEmptiesList`. */
module MostViewedActivity {
  import opened JavaLang
  import opened Clothing
  import opened Loading
  import opened Adapters
  import opened Likes

  /** `collection("Clothes").orderBy("Views", DESCENDING).limit(10)`. */
  const MostViewedQuery: RankedQuery := RankedQuery("Clothes", ViewsField, 10)

  datatype MostViewedScreen = MostViewedScreen(mostViewed: seq<ClothingItem>, shown: seq<ClothingItem>)

  /** Corrected (snapshot `updateItems`). The load's completion: on
      success the list is cleared and refilled from the answer and handed
      to the adapter; on failure only a toast shows. */
  function OnLoaded(s: MostViewedScreen, result: QueryResult, uid: JString): (r: MostViewedScreen)
    ensures result.QueryFailure? ==> r == s
    ensures result.QuerySuccess? ==>
              && r.shown == r.mostViewed
              && |r.mostViewed| == |KeptIndices(result.docs)|
              && forall i :: 0 <= i < |r.mostViewed| ==>
                   r.mostViewed[i] == Stamp(result.docs[KeptIndices(result.docs)[i]], uid)
  {
    match result
    case QuerySuccess(docs) =>
      var items := LoadItems(docs, uid);
      MostViewedScreen(items, items)
    case QueryFailure(_) => s
  }

  /** A successful load replaces whatever was there: two screens that
      receive the same answer end up the same. */
  lemma ReloadReplaces(s1: MostViewedScreen, s2: MostViewedScreen, docs: seq<Doc>, uid: JString)
    ensures OnLoaded(s1, QuerySuccess(docs), uid) == OnLoaded(s2, QuerySuccess(docs), uid)
  {
  }

  /** Given an answer the query allows, the screen lists at most ten items,
      most viewed first, with their liked flags from the answer. */
  lemma MostViewedAreRanked(s: MostViewedScreen, docs: seq<Doc>, uid: JString)
    requires Answers(MostViewedQuery, docs)
    ensures var r := OnLoaded(s, QuerySuccess(docs), uid);
            && |r.mostViewed| <= 10
            && (forall i, j :: 0 <= i < j < |r.mostViewed| ==> r.mostViewed[i].views >= r.mostViewed[j].views)
  {
    LoadRespectsQuery(MostViewedQuery, docs, uid);
  }

  /** `onItemLike`: writes unless there is no user or the id is `null`. */
  function OnItemLike(uid: JString, item: ClothingItem, isLiked: bool): (w: LikeWrite)
    ensures w.NoWrite? <==> uid.Null? || item.id.Null?
    ensures w.UpdateLikedUsers? ==> w.docId == item.id.value
                                    && w.op == (if isLiked then ArrayUnion(uid.value) else ArrayRemove(uid.value))
  {
    LikeWriteFor(RejectNull, uid, item, isLiked)
  }

  /** As written, the adapter is an ItemAdapter over `mostViewedList`
      itself, so `adapter.updateItems(mostViewedList)` after the loop
      empties the list it has just filled. */
  lemma LoadAsWrittenEmptiesList(h: Heap, listRef: Ref, docs: seq<Doc>, uid: JString)
    requires listRef in h && LoadItems(docs, uid) != []
    ensures var h1 := h[listRef := LoadItems(docs, uid)];
            var adapter := NewItemAdapter(NonNull(listRef));
            var r := UpdateItems(h1, adapter, NonNull(listRef));
            r.NonNull? && r.value[listRef] == [] && GetItemCount(r.value, adapter) == 0
  {
  }
}
