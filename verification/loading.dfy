/** Turning a Firestore query answer into the item list a screen shows:
    the loop ListActivity, TopPicksManager and MostViewedActivity each
    write. Documents that deserialise to `null` are skipped; every kept
    item gets its document id and the liked flag of the liked-by-me rule. */
module Loading {
  import opened JavaLang
  import opened Clothing

  /** One document of a query answer: its id, what `toObject` produced
      (`null` when it could not), and the raw `likedUsers` field that
      `doc.get("likedUsers")` returns. */
  datatype Doc = Doc(docId: string, item: Nullable<ClothingItem>, likedUsersField: Nullable<seq<string>>)

  /** A query's outcome: the documents in query order, or a failure. */
  datatype QueryResult = QuerySuccess(docs: seq<Doc>) | QueryFailure(error: string)

  /** The item a document contributes: its id set to the document id and
      its flag set by the liked-by-me rule; nothing else changes. */
  function Stamp(d: Doc, uid: JString): (r: ClothingItem)
    requires d.item.NonNull?
    ensures r.id == NonNull(d.docId)
    ensures r.likedByCurrentUser <==> LikedBy(uid, d.likedUsersField)
    ensures r.(id := d.item.value.id, likedByCurrentUser := d.item.value.likedByCurrentUser) == d.item.value
  {
    SetLiked(SetId(d.item.value, NonNull(d.docId)), LikedBy(uid, d.likedUsersField))
  }

  /** The positions of the documents that deserialised, in query order. */
  function KeptIndices(docs: seq<Doc>): (ix: seq<nat>)
    ensures forall a, b :: 0 <= a < b < |ix| ==> ix[a] < ix[b]
    ensures forall a :: 0 <= a < |ix| ==> ix[a] < |docs| && docs[ix[a]].item.NonNull?
    ensures forall j :: 0 <= j < |docs| && docs[j].item.NonNull? ==> j in ix
    decreases |docs|
  {
    if docs == [] then []
    else
      var n := |docs| - 1;
      var rest := KeptIndices(docs[..n]);
      if docs[n].item.NonNull? then rest + [n] else rest
  }

  /** The loaded list: one stamped item per deserialised document, in
      query order; `null` documents are skipped. */
  function LoadItems(docs: seq<Doc>, uid: JString): (r: seq<ClothingItem>)
    ensures |r| == |KeptIndices(docs)| <= |docs|
    ensures forall i :: 0 <= i < |r| ==> r[i] == Stamp(docs[KeptIndices(docs)[i]], uid)
    decreases |docs|
  {
    if docs == [] then []
    else
      var n := |docs| - 1;
      var rest := LoadItems(docs[..n], uid);
      assert forall a :: 0 <= a < |KeptIndices(docs[..n])| ==> docs[..n][KeptIndices(docs[..n])[a]] == docs[KeptIndices(docs[..n])[a]];
      if docs[n].item.NonNull? then rest + [Stamp(docs[n], uid)] else rest
  }

  /** Every loaded item carries the id of a returned document. */
  lemma LoadedIdsAreDocIds(docs: seq<Doc>, uid: JString)
    ensures forall i :: 0 <= i < |LoadItems(docs, uid)| ==>
              exists j :: 0 <= j < |docs| && LoadItems(docs, uid)[i].id == NonNull(docs[j].docId)
  {
    var r := LoadItems(docs, uid);
    var ix := KeptIndices(docs);
    forall i | 0 <= i < |r| ensures exists j :: 0 <= j < |docs| && r[i].id == NonNull(docs[j].docId) {
      assert r[i].id == NonNull(docs[ix[i]].docId);
    }
  }

  /** The Java loop: clear, then for each document deserialise, skip a
      `null`, stamp the id, compute the liked flag and append. */
  method LoadLoop(docs: seq<Doc>, uid: JString) returns (r: seq<ClothingItem>)
    ensures r == LoadItems(docs, uid)
  {
    r := [];
    var i := 0;
    while i < |docs|
      invariant 0 <= i <= |docs|
      invariant r == LoadItems(docs[..i], uid)
    {
      assert docs[..i + 1][..i] == docs[..i];
      var d := docs[i];
      if d.item.NonNull? {
        var item := SetId(d.item.value, NonNull(d.docId));
        var liked := ComputeLiked(uid, d.likedUsersField);
        item := SetLiked(item, liked);
        r := r + [item];
      }
      i := i + 1;
    }
    assert docs[..i] == docs;
  }

  // ---------------------------------------------------------------------
  // The ranked queries

  /** The integer fields a ranked query orders by: "Likes" and "Views". */
  datatype OrderField = LikesField | ViewsField

  function Key(f: OrderField, item: ClothingItem): int {
    match f
    case LikesField => item.likes
    case ViewsField => item.views
  }

  /** `collection(c).orderBy(f, DESCENDING).limit(n)`. */
  datatype RankedQuery = RankedQuery(collection: string, orderBy: OrderField, limit: nat)

  /** What the backend promises of a ranked query's answer: at most `limit`
      documents, the deserialisable ones in non-increasing key order. */
  ghost predicate Answers(q: RankedQuery, docs: seq<Doc>) {
    && |docs| <= q.limit
    && forall i, j :: 0 <= i < j < |docs| && docs[i].item.NonNull? && docs[j].item.NonNull? ==>
         Key(q.orderBy, docs[i].item.value) >= Key(q.orderBy, docs[j].item.value)
  }

  /** Loading keeps the answer's promise: the loaded list is no longer
      than the limit and is ranked by the query's key, highest first. */
  lemma LoadRespectsQuery(q: RankedQuery, docs: seq<Doc>, uid: JString)
    requires Answers(q, docs)
    ensures |LoadItems(docs, uid)| <= q.limit
    ensures forall i, j :: 0 <= i < j < |LoadItems(docs, uid)| ==>
              Key(q.orderBy, LoadItems(docs, uid)[i]) >= Key(q.orderBy, LoadItems(docs, uid)[j])
  {
    var r := LoadItems(docs, uid);
    var ix := KeptIndices(docs);
    forall i, j | 0 <= i < j < |r| ensures Key(q.orderBy, r[i]) >= Key(q.orderBy, r[j]) {
      assert ix[i] < ix[j];
      assert Key(q.orderBy, r[i]) == Key(q.orderBy, docs[ix[i]].item.value);
      assert Key(q.orderBy, r[j]) == Key(q.orderBy, docs[ix[j]].item.value);
    }
  }
}
