/** The clothing-item record shared by every screen (ClothingItem.java),
    with the "liked by the current user" rule that the loaders repeat. */
module Clothing {
  import opened JavaLang
  import opened JavaString

  /** A nullable Java `String`. */
  type JString = Nullable<string>

  /** One clothing item. Every reference field may be `null`, as in the
      Java class; `images` elements may be `null` too because the image
      binders test the first URL for `null`. The `dateAdded` timestamp is
      not modelled. `likedByCurrentUser` is local, never persisted. */
  datatype ClothingItem = ClothingItem(
    id: JString,
    name: JString,
    category: JString,
    fabric: JString,
    fit: JString,
    care: JString,
    images: Nullable<seq<JString>>,
    likedUsers: Nullable<seq<string>>,
    sizes: Nullable<seq<string>>,
    views: Int32,
    likes: Int32,
    likedByCurrentUser: bool)

  /** Java's `list != null ? list : new ArrayList<>()`. */
  function OrEmpty<T>(list: Nullable<seq<T>>): (r: seq<T>)
    ensures list.NonNull? ==> r == list.value
    ensures list.Null? ==> r == []
  {
    list.OrElse([])
  }

  /** The no-argument constructor Firestore deserialisation uses: three
      empty lists, every other reference `null`, counters 0, not liked. */
  function NewDefault(): (r: ClothingItem)
    ensures r.images == NonNull([]) && r.likedUsers == NonNull([]) && r.sizes == NonNull([])
    ensures r.id.Null? && r.name.Null? && r.category.Null?
    ensures r.fabric.Null? && r.fit.Null? && r.care.Null?
    ensures r.views == 0 && r.likes == 0 && !r.likedByCurrentUser
  {
    ClothingItem(Null, Null, Null, Null, Null, Null, NonNull([]), NonNull([]), NonNull([]), 0, 0, false)
  }

  /** The convenience constructor: null lists become empty lists, nobody
      has liked it yet, both counters start at 0, and no id is assigned. */
  function NewItem(name: JString, category: JString, fabric: JString, fit: JString,
                   care: JString, images: Nullable<seq<JString>>,
                   sizes: Nullable<seq<string>>): (r: ClothingItem)
    ensures r.name == name && r.category == category && r.fabric == fabric
    ensures r.fit == fit && r.care == care
    ensures r.images.NonNull? && r.images.value == OrEmpty(images)
    ensures r.sizes.NonNull? && r.sizes.value == OrEmpty(sizes)
    ensures r.likedUsers == NonNull([])
    ensures r.views == 0 && r.likes == 0
    ensures r.id.Null? && !r.likedByCurrentUser
  {
    ClothingItem(Null, name, category, fabric, fit, care,
                 NonNull(OrEmpty(images)), NonNull([]), NonNull(OrEmpty(sizes)), 0, 0, false)
  }

  /** `setId`: only the id changes. */
  function SetId(item: ClothingItem, id: JString): (r: ClothingItem)
    ensures r.id == id
    ensures r.(id := item.id) == item
  {
    item.(id := id)
  }

  /** `setLikedByCurrentUser`: only the local flag changes. */
  function SetLiked(item: ClothingItem, liked: bool): (r: ClothingItem)
    ensures r.likedByCurrentUser == liked
    ensures r.(likedByCurrentUser := item.likedByCurrentUser) == item
  {
    item.(likedByCurrentUser := liked)
  }

  /** `setId(x)` followed by `getId()` yields `x`; the setter is undone by
      setting the old id back. */
  lemma SetIdGetId(item: ClothingItem, id: JString)
    ensures SetId(item, id).id == id
    ensures SetId(SetId(item, id), item.id) == item
  {
  }

  /** `setLikedByCurrentUser(b)` followed by `isLikedByCurrentUser()`
      yields `b`, and a second set overrides the first. */
  lemma SetLikedIsLiked(item: ClothingItem, a: bool, b: bool)
    ensures SetLiked(item, b).likedByCurrentUser == b
    ensures SetLiked(SetLiked(item, a), b) == SetLiked(item, b)
  {
  }

  // ---------------------------------------------------------------------
  // equals / hashCode

  /** `equals(o)`: `o` is a non-null ClothingItem with the same id, two
      `null` ids counting as equal (`Objects.equals`). The identity short
      cut `this == o` is subsumed, since an object has its own id. */
  function Equals(self: ClothingItem, o: Nullable<ClothingItem>): (r: bool)
    ensures o == NonNull(self) ==> r
    ensures o.Null? ==> !r
    ensures o.NonNull? && o.value.id == self.id ==> r
  {
    o.NonNull? && self.id == o.value.id
  }

  /** Equality ignores every field but the id: it is an equivalence and
      two items agree under it exactly when their ids agree. */
  lemma EqualsIsIdEquivalence(a: ClothingItem, b: ClothingItem, c: ClothingItem)
    ensures Equals(a, NonNull(a))
    ensures Equals(a, NonNull(b)) <==> Equals(b, NonNull(a))
    ensures Equals(a, NonNull(b)) && Equals(b, NonNull(c)) ==> Equals(a, NonNull(c))
    ensures Equals(a, NonNull(b)) <==> a.id == b.id
    ensures !Equals(a, Null)
  {
  }

  /** Two items with `null` ids are equal whatever else they hold. */
  lemma NullIdsAreEqual(a: ClothingItem, b: ClothingItem)
    requires a.id.Null? && b.id.Null?
    ensures Equals(a, NonNull(b))
  {
  }

  /** The hash `hashCode` returns, stated arithmetically. */
  ghost function ItemHash(item: ClothingItem): Int32 {
    match item.id
    case Null => 0
    case NonNull(s) => Wrap32(HashPolynomial(s))
  }

  /** `hashCode`: 0 for a `null` id, otherwise the id string's hash. */
  method HashCode(item: ClothingItem) returns (h: Int32)
    ensures h == ItemHash(item)
    ensures item.id.Null? ==> h == 0
  {
    match item.id
    case Null => h := 0;
    case NonNull(s) => h := StringHashCode(s);
  }

  /** `hashCode` is consistent with `equals`. */
  lemma HashConsistentWithEquals(a: ClothingItem, b: ClothingItem)
    requires Equals(a, NonNull(b))
    ensures ItemHash(a) == ItemHash(b)
  {
  }

  // ---------------------------------------------------------------------
  // The liked-by-me rule

  /** The rule the loaders repeat: a signed-in user id, a non-null liked
      list, and that list contains the id. */
  function LikedBy(uid: JString, likedUsers: Nullable<seq<string>>): (r: bool)
    ensures uid.Null? || likedUsers.Null? ==> !r
    ensures uid.NonNull? && likedUsers.NonNull? ==>
              (r <==> exists i :: 0 <= i < |likedUsers.value| && likedUsers.value[i] == uid.value)
  {
    uid.NonNull? && likedUsers.NonNull? && uid.value in likedUsers.value
  }

  /** `List.contains`: a left-to-right scan comparing with `equals`. */
  method ListContains(list: seq<string>, x: string) returns (found: bool)
    ensures found <==> x in list
  {
    found := false;
    var i := 0;
    while i < |list| && !found
      invariant 0 <= i <= |list|
      invariant found <==> x in list[..i]
    {
      found := list[i] == x;
      assert list[..i + 1] == list[..i] + [list[i]];
      i := i + 1;
    }
    if !found {
      assert list[..i] == list;
    }
  }

  /** The liked flag the loaders compute, in the order the Java tests it. */
  method ComputeLiked(uid: JString, likedUsers: Nullable<seq<string>>) returns (liked: bool)
    ensures liked <==> LikedBy(uid, likedUsers)
  {
    liked := false;
    if likedUsers.NonNull? && uid.NonNull? {
      liked := ListContains(likedUsers.value, uid.value);
    }
  }
}
