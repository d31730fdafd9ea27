/** The like toggle the list, top-picks and most-viewed screens share:
    the double tap proposes the negated flag, `onItemLike` guards on a
    signed-in user and an item id, asks the backend to add or remove the
    user in the item's `likedUsers`, and on completion commits the
    proposed flag or, on failure, sets its opposite. */
module Likes {
  import opened JavaLang
  import opened Clothing
  import opened Adapters

  /** The backend array edits `FieldValue.arrayUnion` / `arrayRemove`. */
  datatype ArrayOp = ArrayUnion(uid: string) | ArrayRemove(uid: string)

  /** What `onItemLike` asks of the backend. */
  datatype LikeWrite = NoWrite | UpdateLikedUsers(docId: string, op: ArrayOp)

  /** The id check each screen makes: ListActivity rejects a `null` or
      empty id, TopPicksActivity and MostViewedActivity only a `null` one. */
  datatype IdGuard = RejectNullOrEmpty | RejectNull

  predicate IdAccepted(guard: IdGuard, id: JString) {
    id.NonNull? && (guard == RejectNullOrEmpty ==> id.value != "")
  }

  /** `onItemLike`'s request: nothing without a signed-in user or an
      acceptable id; otherwise add the user for a like and remove the user
      for an unlike, on the item's own document. */
  function LikeWriteFor(guard: IdGuard, uid: JString, item: ClothingItem, isLiked: bool): (w: LikeWrite)
    ensures w.NoWrite? <==> uid.Null? || !IdAccepted(guard, item.id)
    ensures w.UpdateLikedUsers? ==> w.docId == item.id.value
    ensures w.UpdateLikedUsers? && isLiked ==> w.op == ArrayUnion(uid.value)
    ensures w.UpdateLikedUsers? && !isLiked ==> w.op == ArrayRemove(uid.value)
  {
    if uid.Null? then NoWrite
    else if !IdAccepted(guard, item.id) then NoWrite
    else UpdateLikedUsers(item.id.value, if isLiked then ArrayUnion(uid.value) else ArrayRemove(uid.value))
  }

  /** An empty id passes the top-picks and most-viewed guard but not the
      list screen's. */
  lemma EmptyIdGuardsDiffer(uid: string, item: ClothingItem, isLiked: bool)
    requires item.id == NonNull("")
    ensures LikeWriteFor(RejectNullOrEmpty, NonNull(uid), item, isLiked).NoWrite?
    ensures LikeWriteFor(RejectNull, NonNull(uid), item, isLiked).UpdateLikedUsers?
  {
  }

  /** The local effect of the write's completion: the proposed flag on
      success, its opposite on failure; nothing else on the item changes. */
  function OnLikeCompleted(item: ClothingItem, isLiked: bool, success: bool): (r: ClothingItem)
    ensures success ==> r.likedByCurrentUser == isLiked
    ensures !success ==> r.likedByCurrentUser == !isLiked
    ensures r.(likedByCurrentUser := item.likedByCurrentUser) == item
  {
    SetLiked(item, if success then isLiked else !isLiked)
  }

  /** A double tap followed by a failed write leaves the item exactly as it
      was; followed by a successful write it flips the flag. */
  lemma DoubleTapRoundTrip(h: Heap, a: Adapter, position: nat, success: bool)
    requires a.items.NonNull? && a.items.value in h && position < |h[a.items.value]|
    ensures var req := DoubleTap(h, a, position, true);
            && req.NonNull?
            && (!success ==> OnLikeCompleted(req.value.item, req.value.isLiked, success) == h[a.items.value][position])
            && (success ==> OnLikeCompleted(req.value.item, req.value.isLiked, success).likedByCurrentUser
                            == !h[a.items.value][position].likedByCurrentUser)
  {
  }

  // ---------------------------------------------------------------------
  // The backend's array edits

  /** `arrayUnion(uid)`: append the user unless already present. */
  function ApplyArrayOp(likedUsers: seq<string>, op: ArrayOp): (r: seq<string>)
    ensures op.ArrayUnion? ==> op.uid in r && (forall u :: u in r <==> u in likedUsers || u == op.uid)
    ensures op.ArrayRemove? ==> forall u :: u in r <==> u in likedUsers && u != op.uid
    decreases |likedUsers|
  {
    match op
    case ArrayUnion(uid) => if uid in likedUsers then likedUsers else likedUsers + [uid]
    case ArrayRemove(uid) =>
      if likedUsers == [] then []
      else
        var rest := ApplyArrayOp(likedUsers[1..], op);
        assert likedUsers == [likedUsers[0]] + likedUsers[1..];
        if likedUsers[0] == uid then rest else [likedUsers[0]] + rest
  }

  /** The backend's stored list after a write: a missing list counts as
      empty. */
  function StoredAfter(likedUsers: Nullable<seq<string>>, op: ArrayOp): seq<string> {
    ApplyArrayOp(OrEmpty(likedUsers), op)
  }

  /** A committed flag agrees with what the liked-by-me rule computes when
      the item is loaded again after the write. */
  lemma CommittedFlagMatchesReload(uid: string, item: ClothingItem, isLiked: bool, stored: Nullable<seq<string>>)
    requires IdAccepted(RejectNull, item.id)
    ensures var w := LikeWriteFor(RejectNull, NonNull(uid), item, isLiked);
            LikedBy(NonNull(uid), NonNull(StoredAfter(stored, w.op)))
              == OnLikeCompleted(item, isLiked, true).likedByCurrentUser
  {
  }
}
