/** The two RecyclerView adapters (ItemAdapter, RowListItemAdapter): how
    each holds its list, `updateItems`, `getItemCount`, the double-tap
    like gesture, and what `bind` puts on a row.

    Java lists are mutable objects shared by reference, and the two
    adapters differ exactly there: ItemAdapter keeps the caller's list,
    RowListItemAdapter keeps a copy. The model therefore holds lists in a
    heap from references to contents. */
module Adapters {
  import opened JavaLang
  import opened Clothing

  /** A reference to a `List<ClothingItem>` object. */
  type Ref = nat

  /** The contents of every live list object. */
  type Heap = map<Ref, seq<ClothingItem>>

  datatype AdapterKind = ItemAdapterKind | RowListAdapterKind

  /** An adapter and the list object it renders (`null` is possible only
      for ItemAdapter, which stores whatever it was given). */
  datatype Adapter = Adapter(kind: AdapterKind, items: Nullable<Ref>)

  /** The references an adapter call touches all name live lists. */
  predicate Live(h: Heap, r: Nullable<Ref>) {
    r.NonNull? ==> r.value in h
  }

  /** `new ItemAdapter(context, items)`: keeps the caller's reference. */
  function NewItemAdapter(items: Nullable<Ref>): (a: Adapter)
    ensures a.kind == ItemAdapterKind && a.items == items
  {
    Adapter(ItemAdapterKind, items)
  }

  /** `new RowListItemAdapter(context, items)`: allocates a new list
      holding a copy of the caller's contents. */
  function NewRowListAdapter(h: Heap, items: Ref, copyRef: Ref): (r: (Heap, Adapter))
    requires items in h && copyRef !in h
    ensures r.1.kind == RowListAdapterKind && r.1.items == NonNull(copyRef) && copyRef != items
    ensures r.0.Keys == h.Keys + {copyRef} && r.0[copyRef] == h[items]
    ensures forall q :: q in h ==> r.0[q] == h[q]
  {
    (h[copyRef := h[items]], Adapter(RowListAdapterKind, NonNull(copyRef)))
  }

  /** `getItemCount`: the size of the adapter's list, 0 for `null`. */
  function GetItemCount(h: Heap, a: Adapter): (n: nat)
    requires Live(h, a.items)
    ensures a.items.Null? ==> n == 0
    ensures a.items.NonNull? ==> n == |h[a.items.value]|
  {
    match a.items
    case Null => 0
    case NonNull(own) => |h[own]|
  }

  /** `updateItems(newItems)`, the same code in both adapters: nothing for
      `null`; otherwise `items.clear()` followed by `items.addAll(newItems)`.
      The result is `Null` when the adapter's own list is `null` (a
      NullPointerException). `addAll` reads `newItems` after the clear, so
      when `newItems` is the adapter's own list it adds nothing. */
  function UpdateItems(h: Heap, a: Adapter, newItems: Nullable<Ref>): (r: Nullable<Heap>)
    requires Live(h, a.items) && Live(h, newItems)
    ensures newItems.Null? ==> r == NonNull(h)
    ensures newItems.NonNull? && a.items.Null? ==> r.Null?
    ensures newItems.NonNull? && a.items.NonNull? ==>
              && r.NonNull? && r.value.Keys == h.Keys
              && (newItems.value != a.items.value ==> r.value[a.items.value] == h[newItems.value])
              && (newItems.value == a.items.value ==> r.value[a.items.value] == [])
              && (forall q :: q in h && q != a.items.value ==> r.value[q] == h[q])
  {
    match (a.items, newItems)
    case (_, Null) => NonNull(h)
    case (Null, NonNull(_)) => Null
    case (NonNull(own), NonNull(src)) =>
      var cleared := h[own := []];
      NonNull(cleared[own := cleared[own] + cleared[src]])
  }

  /** `updateItems` as evidently intended: the adapter's list ends up with
      the contents `newItems` had before the call, even when `newItems` is
      the adapter's own list (read the source before clearing). */
  function UpdateItemsSnapshot(h: Heap, a: Adapter, newItems: Nullable<Ref>): (r: Nullable<Heap>)
    requires Live(h, a.items) && Live(h, newItems)
    ensures newItems.Null? ==> r == NonNull(h)
    ensures newItems.NonNull? && a.items.Null? ==> r.Null?
    ensures newItems.NonNull? && a.items.NonNull? ==>
              && r.NonNull? && r.value.Keys == h.Keys
              && r.value[a.items.value] == h[newItems.value]
              && (forall q :: q in h && q != a.items.value ==> r.value[q] == h[q])
  {
    match (a.items, newItems)
    case (_, Null) => NonNull(h)
    case (Null, NonNull(_)) => Null
    case (NonNull(own), NonNull(src)) =>
      var snapshot := h[src];
      NonNull(h[own := snapshot])
  }

  /** The two agree whenever the adapter is handed a list other than its
      own, and differ exactly on a non-empty self-update. */
  lemma UpdateItemsAgreesOffSelf(h: Heap, a: Adapter, newItems: Nullable<Ref>)
    requires Live(h, a.items) && Live(h, newItems)
    ensures (UpdateItems(h, a, newItems) != UpdateItemsSnapshot(h, a, newItems)) <==>
              newItems.NonNull? && a.items == newItems && h[newItems.value] != []
  {
    if newItems.NonNull? && a.items == newItems && h[newItems.value] != [] {
      assert UpdateItems(h, a, newItems).value[a.items.value] == [];
    } else if newItems.NonNull? && a.items.NonNull? {
      assert UpdateItems(h, a, newItems).value == UpdateItemsSnapshot(h, a, newItems).value;
    }
  }

  /** Updating from its own list is a no-op for the snapshot version. */
  lemma SnapshotSelfUpdateKeeps(h: Heap, caller: Ref)
    requires caller in h
    ensures UpdateItemsSnapshot(h, NewItemAdapter(NonNull(caller)), NonNull(caller)) == NonNull(h)
  {
    var r := UpdateItemsSnapshot(h, NewItemAdapter(NonNull(caller)), NonNull(caller));
    assert r.value.Keys == h.Keys;
    assert forall q :: q in h ==> r.value[q] == h[q];
    assert r.value == h;
  }

  /** ItemAdapter shares the caller's list: a later change to that list
      is what the adapter renders. */
  lemma ItemAdapterSharesCallerList(h: Heap, caller: Ref, later: seq<ClothingItem>)
    requires caller in h
    ensures GetItemCount(h[caller := later], NewItemAdapter(NonNull(caller))) == |later|
  {
  }

  /** RowListItemAdapter's defensive copy: a later change to the caller's
      list does not reach the adapter. */
  lemma RowListCopyIsIsolated(h: Heap, caller: Ref, copyRef: Ref, later: seq<ClothingItem>)
    requires caller in h && copyRef !in h
    ensures var (h1, a) := NewRowListAdapter(h, caller, copyRef);
            h1[caller := later][a.items.value] == h[caller]
  {
  }

  /** As written, ItemAdapter.updateItems handed the very list it was
      built with (what every screen using it does) empties that list:
      the adapter and the screen both lose their items. */
  lemma ItemAdapterSelfUpdateEmpties(h: Heap, caller: Ref)
    requires caller in h && h[caller] != []
    ensures var r := UpdateItems(h, NewItemAdapter(NonNull(caller)), NonNull(caller));
            r.NonNull? && r.value[caller] == [] && r.value[caller] != h[caller]
  {
  }

  /** With a defensive copy (RowListItemAdapter, and the fix for
      ItemAdapter), updating from the caller's list makes the adapter show
      exactly that list and leaves the caller's list alone. */
  lemma CopyingAdapterSelfUpdateKeeps(h: Heap, caller: Ref, copyRef: Ref)
    requires caller in h && copyRef !in h
    ensures var (h1, a) := NewRowListAdapter(h, caller, copyRef);
            var r := UpdateItems(h1, a, NonNull(caller));
            r.NonNull? && r.value[copyRef] == h[caller] && r.value[caller] == h[caller]
            && GetItemCount(r.value, a) == |h[caller]|
  {
  }

  // ---------------------------------------------------------------------
  // Double tap

  /** `RecyclerView.NO_POSITION`. */
  const NoPosition: int := -1

  /** The `onItemLike(item, position, isLiked)` callback's arguments. */
  datatype LikeRequest = LikeRequest(item: ClothingItem, position: nat, isLiked: bool)

  /** `onDoubleTap`: with a bound position and a like listener, report the
      tapped item with the negation of its current flag; else nothing. */
  function DoubleTap(h: Heap, a: Adapter, position: int, hasListener: bool): (r: Nullable<LikeRequest>)
    requires a.items.NonNull? && a.items.value in h
    requires position == NoPosition || 0 <= position < |h[a.items.value]|
    ensures r.NonNull? <==> position != NoPosition && hasListener
    ensures r.NonNull? ==> r.value.position == position
                           && r.value.item == h[a.items.value][position]
                           && r.value.isLiked != r.value.item.likedByCurrentUser
  {
    if position != NoPosition && hasListener then
      var item := h[a.items.value][position];
      NonNull(LikeRequest(item, position, !item.likedByCurrentUser))
    else
      Null
  }

  // ---------------------------------------------------------------------
  // Row presentation

  const UnknownName: string := "Unknown Item"
  const NoDetails: string := "No details available"
  const Separator: string := " · "

  /** `s != null && !s.isEmpty()`. */
  predicate Present(s: JString) {
    s.NonNull? && s.value != ""
  }

  /** The row title: the name, or "Unknown Item" when it is `null` (an
      empty name is shown as it is). */
  function DisplayName(name: JString): (r: string)
    ensures name.NonNull? ==> r == name.value
    ensures name.Null? ==> r == UnknownName
  {
    name.OrElse(UnknownName)
  }

  /** The subtitle as the StringBuilder assembles it: append the fabric if
      present; append the fit if present, after a separator when something
      precedes it; fall back when nothing was appended. */
  function Subtitle(fabric: JString, fit: JString): (r: string)
    ensures Present(fabric) && Present(fit) ==> r == fabric.value + Separator + fit.value
    ensures Present(fabric) && !Present(fit) ==> r == fabric.value
    ensures !Present(fabric) && Present(fit) ==> r == fit.value
    ensures !Present(fabric) && !Present(fit) ==> r == NoDetails
  {
    var afterFabric := if Present(fabric) then fabric.value else "";
    var afterFit :=
      if Present(fit) then (if |afterFabric| > 0 then afterFabric + Separator else afterFabric) + fit.value
      else afterFabric;
    if |afterFit| == 0 then NoDetails else afterFit
  }

  /** The subtitle is never blank, and it names the fabric first. */
  lemma SubtitleShape(fabric: JString, fit: JString)
    ensures Subtitle(fabric, fit) != ""
    ensures Present(fabric) ==> fabric.value <= Subtitle(fabric, fit)
  {
  }

  datatype ImageSource = Url(url: string) | Placeholder

  /** The image to load: the first URL when the list is non-null and
      non-empty and that URL is non-null and non-empty; else the
      placeholder drawable. */
  function FirstImage(images: Nullable<seq<JString>>): (r: ImageSource)
    ensures r.Url? <==> images.NonNull? && |images.value| > 0 && Present(images.value[0])
    ensures r.Url? ==> r.url == images.value[0].value
  {
    var first := if images.NonNull? && |images.value| > 0 then images.value[0] else Null;
    if Present(first) then Url(first.value) else Placeholder
  }

  /** What `bind` sets on a row. `Null` visibility means `bind` leaves that
      view as the layout made it. */
  datatype RowView = RowView(
    name: string,
    subtitle: string,
    image: ImageSource,
    heartVisible: Nullable<bool>,
    likedLabelVisible: Nullable<bool>)

  /** `bind(item, position)`: nothing for a `null` item. ItemAdapter also
      shows the heart overlay and "liked" label exactly when the item is
      liked; RowListItemAdapter never touches them. */
  function Bind(kind: AdapterKind, item: Nullable<ClothingItem>): (r: Nullable<RowView>)
    ensures r.NonNull? <==> item.NonNull?
    ensures r.NonNull? ==>
              && r.value.name == DisplayName(item.value.name)
              && r.value.subtitle == Subtitle(item.value.fabric, item.value.fit)
              && r.value.image == FirstImage(item.value.images)
    ensures r.NonNull? && kind == ItemAdapterKind ==>
              r.value.heartVisible == NonNull(item.value.likedByCurrentUser)
              && r.value.likedLabelVisible == NonNull(item.value.likedByCurrentUser)
    ensures r.NonNull? && kind == RowListAdapterKind ==>
              r.value.heartVisible.Null? && r.value.likedLabelVisible.Null?
  {
    match item
    case Null => Null
    case NonNull(it) =>
      var liked := if kind == ItemAdapterKind then NonNull(it.likedByCurrentUser) else Null;
      NonNull(RowView(DisplayName(it.name), Subtitle(it.fabric, it.fit), FirstImage(it.images), liked, liked))
  }
}
