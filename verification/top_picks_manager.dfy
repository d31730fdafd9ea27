/** TopPicksManager.loadTopPicks: the three most-liked items, loaded with
    the shared document loop and handed to exactly one callback. */
module TopPicksManager {
  import opened JavaLang
  import opened Clothing
  import opened Loading

  /** `collection("Clothes").orderBy("Likes", DESCENDING).limit(3)`. */
  const TopPicksQuery: RankedQuery := RankedQuery("Clothes", LikesField, 3)

  /** The callback invoked: `onTopPicksLoaded(items)` or `onError(e)`. */
  datatype TopPicksCallback = OnTopPicksLoaded(items: seq<ClothingItem>) | OnError(error: string)

  /** The one callback the manager invokes for a query outcome: the loaded
      list on success, the failure otherwise. */
  function LoadTopPicks(uid: JString, result: QueryResult): (c: TopPicksCallback)
    ensures c.OnTopPicksLoaded? <==> result.QuerySuccess?
    ensures result.QuerySuccess? ==>
              && c.OnTopPicksLoaded?
              && |c.items| == |KeptIndices(result.docs)|
              && forall i :: 0 <= i < |c.items| ==>
                   c.items[i] == Stamp(result.docs[KeptIndices(result.docs)[i]], uid)
    ensures c.OnError? ==> c.error == result.error
  {
    match result
    case QuerySuccess(docs) => OnTopPicksLoaded(LoadItems(docs, uid))
    case QueryFailure(e) => OnError(e)
  }

  /** Given an answer the query allows, the top picks are at most three
      items, most liked first, each carrying a returned document's id. */
  lemma TopPicksAreRanked(uid: JString, docs: seq<Doc>)
    requires Answers(TopPicksQuery, docs)
    ensures var c := LoadTopPicks(uid, QuerySuccess(docs));
            && |c.items| <= 3
            && (forall i, j :: 0 <= i < j < |c.items| ==> c.items[i].likes >= c.items[j].likes)
            && (forall i :: 0 <= i < |c.items| ==>
                  exists k :: 0 <= k < |docs| && c.items[i].id == NonNull(docs[k].docId))
  {
    LoadRespectsQuery(TopPicksQuery, docs, uid);
    LoadedIdsAreDocIds(docs, uid);
  }
}
