# Closet app core, modelled in Dafny

A model of the logic inside the Android closet app: the app shows clothing
items loaded from Firestore, lets the signed-in user like them, search them
as they type, keep favourites, browse top picks and the most viewed items,
open an item's details, and dress an avatar from liked items. Firestore,
authentication and the image loaders are not modelled. A query answer is an
input sequence of documents, and each screen's behaviour is a pure
transition on an immutable screen record.

Modules follow the program's classes:

- `JavaLang`, `JavaString`: the Java facts the app relies on.
  - Nullable references.
  - 32-bit `int` wrap-around.
  - `toLowerCase`, `trim`, `contains` and `String.hashCode`.
- `Clothing`: the `ClothingItem` record, its constructors, accessors, `equals`/`hashCode`, and the liked-by-me rule.
- `Subsequence`: the order-preserving filter that every `for`/`if`/`add` loop in the app writes. It has one contract: an ordered subsequence that holds exactly the accepted elements, with their multiplicity. The module proves that contract determines the result.
- `Search`: the four search-as-you-type filters. They differ only in which fields they consult and whether they trim the query.
- `Loading`: the shared document loop. It skips `null` documents, stamps the document id and computes the liked flag. It also states the ranked queries' promise.
- `Adapters`: ItemAdapter and RowListItemAdapter.
  - Lists live in an explicit heap from references to contents, so that sharing a list and copying a list can be told apart.
  - `updateItems`, `getItemCount`, the double tap, and what `bind` puts on a row.
- `Likes`: the like protocol the list screens share.
  - The guard and the union/remove choice.
  - The commit-or-revert of the flag.
  - The backend array edits, as assumed.
- `ListActivity`, `TopPicksManager`, `TopPicksActivity`, `MostViewedActivity`, `FavouritesActivity`, `DetailsActivity`, `AvatarActivity`: one module per screen. Each has its state record and its handlers.

Where the code does something its authors evidently did not intend, the
model states the code as written in one member, proves the discrepancy, and
gives a corrected member (see "## Findings"). The top-picks, most-viewed and
favourites screen records are stated with the corrected `updateItems`; each
such member is labelled "Corrected" below, and its as-written counterpart
is a separate member.

## Model

| member | source | states |
|---|---|---|
| Clothing.NewDefault | closet_app/app/src/main/java/com/example/closet/ClothingItem.java:41-46 | The no-argument constructor: `images`, `likedUsers` and `sizes` are empty lists, every other reference is `null`, both counters are 0 and the item is not liked. |
| Clothing.NewItem | closet_app/app/src/main/java/com/example/closet/ClothingItem.java:51-68 | The convenience constructor stores the five texts, replaces a `null` image or size list with an empty one, starts `likedUsers` empty and both counters at 0, and assigns no id. |
| Clothing.SetId | closet_app/app/src/main/java/com/example/closet/ClothingItem.java:76-78 | `setId` sets the id and changes no other field. |
| Clothing.SetIdGetId | closet_app/app/src/main/java/com/example/closet/ClothingItem.java:72-78 | `getId` after `setId(x)` returns `x`, and setting the old id back restores the item. |
| Clothing.SetLiked | closet_app/app/src/main/java/com/example/closet/ClothingItem.java:205-207 | `setLikedByCurrentUser` sets the local flag and changes no other field. |
| Clothing.SetLikedIsLiked | closet_app/app/src/main/java/com/example/closet/ClothingItem.java:201-207 | `isLikedByCurrentUser` after `setLikedByCurrentUser(b)` returns `b`, and a later set overrides an earlier one. |
| Clothing.Equals | closet_app/app/src/main/java/com/example/closet/ClothingItem.java:229-235 | `equals(o)`: an item equals itself, never equals `null`, and equals any item with the same id whatever its other fields. |
| Clothing.EqualsIsIdEquivalence | closet_app/app/src/main/java/com/example/closet/ClothingItem.java:229-235 | `equals` is reflexive, symmetric and transitive, never holds against `null`, and holds exactly when the ids are equal. |
| Clothing.NullIdsAreEqual | closet_app/app/src/main/java/com/example/closet/ClothingItem.java:234 | Two items whose ids are both `null` are equal, whatever their other fields hold. |
| Clothing.HashCode | closet_app/app/src/main/java/com/example/closet/ClothingItem.java:238-240 | `hashCode` is 0 for a `null` id and otherwise the id string's 32-bit hash. |
| Clothing.HashConsistentWithEquals | closet_app/app/src/main/java/com/example/closet/ClothingItem.java:229-240 | Equal items have equal hash codes. |
| JavaString.StringHashCode | closet_app/app/src/main/java/com/example/closet/ClothingItem.java:239 | The `h = 31*h + c` loop over the id's characters equals the hash polynomial wrapped to a two's-complement 32-bit `int`. |
| JavaLang.Wrap32 | closet_app/app/src/main/java/com/example/closet/ClothingItem.java:239 | The `int` a Java computation yields: congruent to the mathematical result modulo 2^32 and equal to it when it fits in 32 bits. |
| Clothing.ListContains | closet_app/app/src/main/java/com/example/closet/TopPicksManager.java:41 | The `List.contains` scan finds `x` exactly when `x` occurs in the list. |
| Clothing.LikedBy | closet_app/app/src/main/java/com/example/closet/TopPicksManager.java:40-41 | The liked-by-me rule: false when the user id or `likedUsers` is `null`; otherwise true exactly when some entry of `likedUsers` is the user id. |
| Clothing.ComputeLiked | closet_app/app/src/main/java/com/example/closet/TopPicksManager.java:40-42 | The loaders' liked flag is true exactly when the user id is non-null, `likedUsers` is non-null and it contains the user id. |
| JavaString.ToLower | closet_app/app/src/main/java/com/example/closet/ListActivity.java:243 | Lower-casing keeps the length, maps each ASCII capital to its small letter, keeps every other character, and leaves no ASCII capital. |
| JavaString.Trim | closet_app/app/src/main/java/com/example/closet/ListActivity.java:243 | `trim` returns a middle slice of the string; everything cut off is a character at or below U+0020; the slice neither starts nor ends with one. |
| JavaString.TrimEmptyIffBlank | closet_app/app/src/main/java/com/example/closet/ListActivity.java:239 | `query.trim().isEmpty()` holds exactly when every character of the query is at or below U+0020. |
| JavaString.LowerTrimCommute | closet_app/app/src/main/java/com/example/closet/ListActivity.java:243 | `toLowerCase().trim()` equals `trim().toLowerCase()`, so the filters' trimmed needle is well defined. |
| JavaString.Contains | closet_app/app/src/main/java/com/example/closet/ListActivity.java:246-248 | `hay.contains(needle)` holds exactly when `needle` occurs in `hay` at some index. |
| JavaString.ContainsEmpty | closet_app/app/src/main/java/com/example/closet/FavouritesActivity.java:189-192 | Every string contains the empty string. |
| Subsequence.Filter | closet_app/app/src/main/java/com/example/closet/ListActivity.java:244-252 | The `for`/`if`/`add` loop's result: an order-preserving subsequence of the source that holds only accepted elements and every accepted element as often as the source does. |
| Subsequence.FilterSpecUnique | closet_app/app/src/main/java/com/example/closet/ListActivity.java:244-252 | That contract determines the result: two lists that both meet it are equal. |
| Subsequence.FilterLoop | closet_app/app/src/main/java/com/example/closet/TopPicksActivity.java:135-156 | The imperative clear-then-append loop meets the filter contract. |
| Subsequence.FilterKeepAll | closet_app/app/src/main/java/com/example/closet/ListActivity.java:239-241 | A filter that accepts every element returns the source unchanged. |
| Subsequence.RemoveAt | closet_app/app/src/main/java/com/example/closet/FavouritesActivity.java:215-216 | `List.remove(int p)`: one element shorter, the elements before `p` unchanged, the ones after shifted down by one. |
| Subsequence.FilterDropsOne | closet_app/app/src/main/java/com/example/closet/FavouritesActivity.java:215-216 | When exactly position `p` fails the test, filtering equals removing position `p`. |
| Search.Needle | closet_app/app/src/main/java/com/example/closet/ListActivity.java:123 | The search-only path lower-cases the query without trimming it; the three as-you-type filters lower-case and trim it. |
| Search.Matches | closet_app/app/src/main/java/com/example/closet/ListActivity.java:130-138 | The `else if` chain: an item with no non-null text never matches; the search-only screen accepts it exactly when name, fabric, fit or category, lower-cased, contains the needle; the category list and favourites screens test the same way over their own fields (no `care` on any screen but top picks). |
| Search.MatchesIffSomeConsultedField | closet_app/app/src/main/java/com/example/closet/TopPicksActivity.java:139-151 | The chain of `else if` tests accepts an item exactly when one of the fields that screen consults is non-null and, lower-cased, contains the needle. |
| Search.CategoryListMatches | closet_app/app/src/main/java/com/example/closet/ListActivity.java:245-249 | The category list accepts an item exactly when its name, fabric or fit contains the needle. |
| Search.UnconsultedFieldIgnored | closet_app/app/src/main/java/com/example/closet/ListActivity.java:245-249 | Changing a field the screen does not consult (category and care for the category list, care for search and favourites) never changes the verdict. |
| Search.EmptyNeedleMatchesNonNull | closet_app/app/src/main/java/com/example/closet/FavouritesActivity.java:185-192 | With an empty needle an item is accepted exactly when one of its consulted fields is non-null. |
| Search.SearchFilterSpec | closet_app/app/src/main/java/com/example/closet/TopPicksActivity.java:135-156 | Filtering for a screen yields a subsequence of the list that holds an item exactly when the item is in the list and matches. |
| Search.FilterEmptyNeedle | closet_app/app/src/main/java/com/example/closet/FavouritesActivity.java:185-195 | With an empty needle, a list whose items all have some consulted field non-null is returned unchanged. |
| Loading.Stamp | closet_app/app/src/main/java/com/example/closet/TopPicksManager.java:35-42 | A deserialised document's item gets the document id and the liked-by-me flag; no other field changes. |
| Loading.KeptIndices | closet_app/app/src/main/java/com/example/closet/TopPicksManager.java:31-49 | The positions kept are increasing, each names a document that deserialised, and every such document is kept. |
| Loading.LoadItems | closet_app/app/src/main/java/com/example/closet/TopPicksManager.java:31-49 | The loaded list has one stamped item per deserialised document, in query order, and is no longer than the answer. |
| Loading.LoadedIdsAreDocIds | closet_app/app/src/main/java/com/example/closet/TopPicksManager.java:37 | Every loaded item carries the id of a returned document. |
| Loading.LoadLoop | closet_app/app/src/main/java/com/example/closet/MostViewedActivity.java:115-127 | The clear, deserialise, skip-`null`, stamp, append loop computes exactly `LoadItems`. |
| Loading.LoadRespectsQuery | closet_app/app/src/main/java/com/example/closet/TopPicksManager.java:22-24 | Given an answer the ranked query allows, the loaded list is no longer than the limit and is ordered by the query's field, highest first. |
| Adapters.NewItemAdapter | closet_app/app/src/main/java/com/example/closet/ItemAdapter.java:48-51 | ItemAdapter keeps the caller's list reference itself. |
| Adapters.NewRowListAdapter | closet_app/app/src/main/java/com/example/closet/RowListItemAdapter.java:49-53 | RowListItemAdapter allocates a fresh list holding a copy of the caller's contents and touches no existing list. |
| Adapters.GetItemCount | closet_app/app/src/main/java/com/example/closet/ItemAdapter.java:75-77 | The count is 0 for a `null` list and the list's length otherwise. |
| Adapters.UpdateItems | closet_app/app/src/main/java/com/example/closet/ItemAdapter.java:82-88 | As written: `null` changes nothing; with a `null` own list it throws; otherwise the own list takes the new contents and no other list changes, except that handing the adapter its own list empties it. |
| Adapters.UpdateItemsSnapshot | closet_app/app/src/main/java/com/example/closet/ItemAdapter.java:82-88 | As intended: the own list ends up with the contents `newItems` had before the call, in every case, and no other list changes. |
| Adapters.UpdateItemsAgreesOffSelf | closet_app/app/src/main/java/com/example/closet/ItemAdapter.java:82-88 | The written and intended `updateItems` differ exactly on a self-update of a non-empty list. |
| Adapters.ItemAdapterSharesCallerList | closet_app/app/src/main/java/com/example/closet/ItemAdapter.java:48-51 | A later change to the caller's list is what ItemAdapter counts. |
| Adapters.RowListCopyIsIsolated | closet_app/app/src/main/java/com/example/closet/RowListItemAdapter.java:51-52 | A later change to the caller's list does not reach RowListItemAdapter's copy. |
| Adapters.ItemAdapterSelfUpdateEmpties | closet_app/app/src/main/java/com/example/closet/ItemAdapter.java:82-88 | ItemAdapter built on a non-empty list and updated from that same list empties it. |
| Adapters.CopyingAdapterSelfUpdateKeeps | closet_app/app/src/main/java/com/example/closet/RowListItemAdapter.java:86-92 | RowListItemAdapter updated from the caller's original list shows exactly that list and leaves the caller's list unchanged. |
| Adapters.SnapshotSelfUpdateKeeps | closet_app/app/src/main/java/com/example/closet/ItemAdapter.java:82-88 | With the intended `updateItems`, a self-update changes no list. |
| Adapters.DoubleTap | closet_app/app/src/main/java/com/example/closet/ItemAdapter.java:131-140 | A double tap reports something exactly when the position is bound and a like listener is set, and then reports the tapped item, its position and the negation of its liked flag. |
| Adapters.DisplayName | closet_app/app/src/main/java/com/example/closet/ItemAdapter.java:179-180 | The row title is the name, or "Unknown Item" when the name is `null`. |
| Adapters.Subtitle | closet_app/app/src/main/java/com/example/closet/ItemAdapter.java:188-201 | Both fabric and fit non-empty give `fabric · fit`, exactly one gives that one, neither gives "No details available". |
| Adapters.SubtitleShape | closet_app/app/src/main/java/com/example/closet/RowListItemAdapter.java:167-180 | The subtitle is never empty and starts with the fabric when the fabric is non-empty. |
| Adapters.FirstImage | closet_app/app/src/main/java/com/example/closet/ItemAdapter.java:241-266 | The first URL is loaded exactly when the image list is non-null, non-empty and its first URL is non-null and non-empty; otherwise the placeholder is. |
| Adapters.Bind | closet_app/app/src/main/java/com/example/closet/ItemAdapter.java:170-231 | A `null` item binds nothing; otherwise the row gets the display name, subtitle and image, and ItemAdapter shows the heart and the "liked" label exactly when the item is liked, while RowListItemAdapter leaves them alone. |
| Likes.LikeWriteFor | closet_app/app/src/main/java/com/example/closet/ListActivity.java:468-490 | No write without a signed-in user or an id the screen accepts; otherwise a like adds and an unlike removes the user in the item's own document. |
| Likes.EmptyIdGuardsDiffer | closet_app/app/src/main/java/com/example/closet/TopPicksActivity.java:175 | An empty id is refused by the list screen's guard but passed on by the top-picks and most-viewed guard. |
| Likes.OnLikeCompleted | closet_app/app/src/main/java/com/example/closet/ListActivity.java:496-520 | The write's completion sets the flag to `isLiked` on success and to `!isLiked` on failure, and changes nothing else. |
| Likes.DoubleTapRoundTrip | closet_app/app/src/main/java/com/example/closet/RowListItemAdapter.java:121-130 | A double tap followed by a failed write restores the item exactly; followed by a successful one it flips the flag. |
| Likes.ApplyArrayOp | closet_app/app/src/main/java/com/example/closet/ListActivity.java:486-490 | The backend edit as assumed: a union holds the old users plus the user, a remove holds the old users except the user. |
| Likes.CommittedFlagMatchesReload | closet_app/app/src/main/java/com/example/closet/ListActivity.java:486-500 | After a successful write, the flag set locally equals the flag the liked-by-me rule computes from the stored list on the next load. |
| ListActivity.SelectedCategory | closet_app/app/src/main/java/com/example/closet/ListActivity.java:99-102 | A missing or empty category extra means "Shirts"; any other value is used as given. |
| ListActivity.Start | closet_app/app/src/main/java/com/example/closet/ListActivity.java:85-108 | A non-empty search extra starts a search for it; otherwise a listing of the selected category starts. |
| ListActivity.UpdateUI | closet_app/app/src/main/java/com/example/closet/ListActivity.java:369-390 | Afterwards the empty state shows exactly when the filtered list is empty, and otherwise the adapter shows the filtered list; the lists do not change. |
| ListActivity.ListFilter | closet_app/app/src/main/java/com/example/closet/ListActivity.java:237-253 | A `null` or blank query gives the whole list in order; any other query gives the filter of the list by name, fabric or fit against the lower-cased, trimmed query. |
| ListActivity.ListFilterKeeps | closet_app/app/src/main/java/com/example/closet/ListActivity.java:243-252 | For a non-blank query, an item is kept exactly when it is in the list and its name, fabric or fit contains the needle. |
| ListActivity.FilterItems | closet_app/app/src/main/java/com/example/closet/ListActivity.java:234-259 | `filterItems` leaves the loaded list alone, sets the filtered list, and leaves the screen consistent. |
| ListActivity.OnCategoryLoaded | closet_app/app/src/main/java/com/example/closet/ListActivity.java:304-363 | On success both lists become the loaded items and the screen is consistent; on failure the lists stay and the empty state shows. |
| ListActivity.IdStamped | closet_app/app/src/main/java/com/example/closet/ListActivity.java:125-141 | The documents that deserialised, in query order, one item each, each carrying its own document id. |
| ListActivity.SearchResults | closet_app/app/src/main/java/com/example/closet/ListActivity.java:123-145 | The results are an order-preserving subsequence of the id-stamped documents; each carries a returned document's id and matches name, fabric, fit or category against the lower-cased, untrimmed query. |
| ListActivity.SearchResultSource | closet_app/app/src/main/java/com/example/closet/ListActivity.java:125-143 | Every result is a deserialised, matching document's item carrying that same document's id. |
| ListActivity.SearchResultComplete | closet_app/app/src/main/java/com/example/closet/ListActivity.java:125-143 | Every deserialised document that matches is a result, with its own document id. |
| ListActivity.OnSearchLoaded | closet_app/app/src/main/java/com/example/closet/ListActivity.java:119-156 | As written: on success the loaded list is left empty and the filtered list holds the results; on failure the lists stay and the empty state shows. |
| ListActivity.SearchThenEditShowsNothing | closet_app/app/src/main/java/com/example/closet/ListActivity.java:120-121 | As written, any `filterItems` after a search load empties the list and shows the empty state. |
| ListActivity.OnSearchLoadedKeepingResults | closet_app/app/src/main/java/com/example/closet/ListActivity.java:119-156 | Corrected: on success both lists hold the results and the screen is consistent. |
| ListActivity.SearchThenEditFiltersResults | closet_app/app/src/main/java/com/example/closet/ListActivity.java:237-253 | Corrected: clearing the search text shows all results again, and any query narrows within them. |
| ListActivity.OnItemLike | closet_app/app/src/main/java/com/example/closet/ListActivity.java:468-490 | No write without a user or with a `null` or empty id; otherwise union for a like and remove for an unlike on the item's document. |
| TopPicksManager.LoadTopPicks | closet_app/app/src/main/java/com/example/closet/TopPicksManager.java:19-57 | Exactly one callback when every document deserialises or yields `null`: `onTopPicksLoaded` with the stamped deserialised documents in order when the query succeeds, `onError` with the failure otherwise. |
| TopPicksManager.TopPicksAreRanked | closet_app/app/src/main/java/com/example/closet/TopPicksManager.java:22-51 | Given an answer the query allows, at most three picks, most liked first, each with a returned document's id. |
| TopPicksActivity.OnCallback | closet_app/app/src/main/java/com/example/closet/TopPicksActivity.java:112-131 | Corrected (snapshot updateItems): on success the picks list, the filtered list and the adapter all take the loaded items; on error nothing changes. |
| TopPicksActivity.FilterTopPicks | closet_app/app/src/main/java/com/example/closet/TopPicksActivity.java:134-163 | Corrected (snapshot updateItems): the filtered list is the filter of the picks by name, category, fabric, fit or care; the adapter shows it; the empty state shows exactly when it is empty. |
| TopPicksActivity.FilterTopPicksAsWritten | closet_app/app/src/main/java/com/example/closet/TopPicksActivity.java:134-163 | As written: after the loop, `updateItems` on the ItemAdapter that shares `filteredList` empties it; no other list changes, and the empty state shows. |
| TopPicksActivity.FilterAsWrittenShowsNothing | closet_app/app/src/main/java/com/example/closet/TopPicksActivity.java:158-162 | As written, every search leaves the adapter with no rows and shows the empty state, even for a query the corrected screen answers with matches. |
| TopPicksActivity.BlankQueryKeepsItemsWithText | closet_app/app/src/main/java/com/example/closet/TopPicksActivity.java:136-151 | A blank query keeps exactly the picks with at least one of the five fields non-null. |
| TopPicksActivity.SearchStaysWithinPicks | closet_app/app/src/main/java/com/example/closet/TopPicksActivity.java:135-156 | The result is an order-preserving subsequence of the picks and holds exactly the matching picks. |
| TopPicksActivity.OnItemLike | closet_app/app/src/main/java/com/example/closet/TopPicksActivity.java:174-181 | No write without a user or with a `null` id; otherwise union for a like and remove for an unlike. |
| TopPicksActivity.LoadAsWrittenEmptiesFilteredList | closet_app/app/src/main/java/com/example/closet/TopPicksActivity.java:116-122 | As written, with ItemAdapter built on the filtered list, the load leaves the picks list full and the filtered list and adapter empty. |
| TopPicksActivity.LoadWithSnapshotShowsPicks | closet_app/app/src/main/java/com/example/closet/TopPicksActivity.java:116-122 | With the intended `updateItems`, the same load leaves both lists and the adapter holding the picks. |
| MostViewedActivity.OnLoaded | closet_app/app/src/main/java/com/example/closet/MostViewedActivity.java:109-135 | Corrected (snapshot updateItems): on success the list and the adapter hold the stamped deserialised documents in order; on failure nothing changes. |
| MostViewedActivity.ReloadReplaces | closet_app/app/src/main/java/com/example/closet/MostViewedActivity.java:115 | A successful load does not depend on what was loaded before. |
| MostViewedActivity.MostViewedAreRanked | closet_app/app/src/main/java/com/example/closet/MostViewedActivity.java:110-128 | Given an answer the query allows, at most ten items, most viewed first. |
| MostViewedActivity.OnItemLike | closet_app/app/src/main/java/com/example/closet/MostViewedActivity.java:145-152 | No write without a user or with a `null` id; otherwise union for a like and remove for an unlike. |
| MostViewedActivity.LoadAsWrittenEmptiesList | closet_app/app/src/main/java/com/example/closet/MostViewedActivity.java:115-128 | As written, with ItemAdapter built on the list itself, a load that found items leaves the list and the adapter empty. |
| FavouritesActivity.CollectFavouriteIds | closet_app/app/src/main/java/com/example/closet/FavouritesActivity.java:152-157 | The entry loop collects exactly the keys whose value is Boolean `true`, each once; the list is empty exactly when there is no such key. |
| FavouritesActivity.LoadFavourites | closet_app/app/src/main/java/com/example/closet/FavouritesActivity.java:148-166 | With no favourite id nothing changes; otherwise both lists are cleared and every favourite id is fetched. |
| FavouritesActivity.LoadEstablishesInv | closet_app/app/src/main/java/com/example/closet/FavouritesActivity.java:164-165 | A load that fetches anything starts from a screen that meets the invariant. |
| FavouritesActivity.OnFetched | closet_app/app/src/main/java/com/example/closet/FavouritesActivity.java:169-177 | Corrected (snapshot updateItems): a fetched document that deserialises is appended to both lists with its document id and flagged liked; a `null` one changes nothing. |
| FavouritesActivity.FetchPreservesInv | closet_app/app/src/main/java/com/example/closet/FavouritesActivity.java:169-177 | Fetching a favourite id not yet listed keeps the invariant: listed items are stored favourites, once each, and the shown list is drawn from them in order. |
| FavouritesActivity.FetchAsWrittenEmptiesFiltered | closet_app/app/src/main/java/com/example/closet/FavouritesActivity.java:172-176 | As written, the self-update after each fetch keeps the favourite in `favouritesList` but empties `filteredList` and the adapter. |
| FavouritesActivity.FilterFavourites | closet_app/app/src/main/java/com/example/closet/FavouritesActivity.java:184-198 | Corrected (snapshot updateItems): the filtered list is the filter of the favourites by name, category, fabric or fit against the lower-cased, trimmed query. |
| FavouritesActivity.FilterPreservesInv | closet_app/app/src/main/java/com/example/closet/FavouritesActivity.java:184-198 | Corrected (snapshot updateItems): filtering keeps the invariant, and the filtered list holds exactly the matching favourites. |
| FavouritesActivity.BlankQueryKeepsItemsWithText | closet_app/app/src/main/java/com/example/closet/FavouritesActivity.java:185-192 | A blank query keeps exactly the favourites with at least one of name, category, fabric and fit non-null. |
| FavouritesActivity.FilterAsWrittenEmptiesFiltered | closet_app/app/src/main/java/com/example/closet/FavouritesActivity.java:186-197 | As written, every search ends with the self-update, leaving `filteredList` and the adapter empty and `favouritesList` unchanged. |
| FavouritesActivity.OnItemLikeAsWritten | closet_app/app/src/main/java/com/example/closet/FavouritesActivity.java:208-220 | As written: a like stores `id -> true`; an unlike throws when the position is outside either list, and otherwise removes the key and removes that position from both lists. |
| FavouritesActivity.OnItemLikeById | closet_app/app/src/main/java/com/example/closet/FavouritesActivity.java:208-220 | Corrected: an unlike removes the key and every item with that id from both lists. |
| FavouritesActivity.ByIdPreservesInv | closet_app/app/src/main/java/com/example/closet/FavouritesActivity.java:211-219 | The corrected handler keeps the invariant, and after an unlike no favourite has that id. |
| FavouritesActivity.AsWrittenAgreesWhenUnfiltered | closet_app/app/src/main/java/com/example/closet/FavouritesActivity.java:214-216 | While the two lists coincide, the handler as written and the corrected one agree. |
| FavouritesActivity.UnlikeDuringSearchRemovesWrongItem | closet_app/app/src/main/java/com/example/closet/FavouritesActivity.java:214-216 | Counterexample: with favourites A, B and only B shown, unliking B drops A instead and breaks the invariant. |
| DetailsActivity.Open | closet_app/app/src/main/java/com/example/closet/DetailsActivity.java:61-65 | A `null` or empty id finishes the screen; any other id is loaded and counted. |
| DetailsActivity.ShouldSetupSlider | closet_app/app/src/main/java/com/example/closet/DetailsActivity.java:161-163 | The slider is set up exactly when the image list is non-null and non-empty. |
| DetailsActivity.Toggle | closet_app/app/src/main/java/com/example/closet/DetailsActivity.java:223-240 | Toggling flips the panel; opening it hides the other two; closing it leaves them alone. |
| DetailsActivity.ToggleKeepsAtMostOne | closet_app/app/src/main/java/com/example/closet/DetailsActivity.java:227-239 | From at most one visible panel, any toggle leaves at most one visible. |
| DetailsActivity.ToggleTwiceRestores | closet_app/app/src/main/java/com/example/closet/DetailsActivity.java:224-225 | With no other panel open, toggling a panel twice restores the start. |
| DetailsActivity.ArrowLeft | closet_app/app/src/main/java/com/example/closet/DetailsActivity.java:208-213 | The left arrow goes back one page, except on page 0. |
| DetailsActivity.ArrowRight | closet_app/app/src/main/java/com/example/closet/DetailsActivity.java:215-220 | The right arrow goes forward one page, except on the last page. |
| DetailsActivity.PressAllInRange | closet_app/app/src/main/java/com/example/closet/DetailsActivity.java:208-220 | From a page on the slider, any run of arrow presses stays on the slider. |
| DetailsActivity.RightThenLeft | closet_app/app/src/main/java/com/example/closet/DetailsActivity.java:208-220 | Right then left returns to the page when it is not the last. |
| DetailsActivity.RightPressesSaturate | closet_app/app/src/main/java/com/example/closet/DetailsActivity.java:215-220 | `k` right presses from page `p` reach `p + k`, capped at the last page. |
| DetailsActivity.InitialDots | closet_app/app/src/main/java/com/example/closet/DetailsActivity.java:174-189 | One dot per image; dot 0 alone is open when there is any. |
| DetailsActivity.OnPageSelected | closet_app/app/src/main/java/com/example/closet/DetailsActivity.java:194-200 | Dot `i` is open exactly when `i` is the selected position; exactly one dot is open when the position is on the slider, none otherwise. |
| AvatarActivity.SlotsAreDistinct | closet_app/app/src/main/java/com/example/closet/AvatarActivity.java:99-103 | Five slots, each bound to a different category. |
| AvatarActivity.Candidates | closet_app/app/src/main/java/com/example/closet/AvatarActivity.java:119-122 | What the slot's query selects: exactly the clothes of the slot's category whose `likedUsers` contains the user, in collection order. |
| AvatarActivity.ChooserNames | closet_app/app/src/main/java/com/example/closet/AvatarActivity.java:124-127 | The labels are "None" followed by each item's name in order, one more than the items. |
| AvatarActivity.Choose | closet_app/app/src/main/java/com/example/closet/AvatarActivity.java:132-136 | Entry 0 resets the slot; entry `k >= 1` selects item `k - 1`. |
| AvatarActivity.ChooserLabelsMatchSelection | closet_app/app/src/main/java/com/example/closet/AvatarActivity.java:124-136 | The label on entry `k >= 1` is the name of the item that entry selects. |
| AvatarActivity.ChoiceIsCandidate | closet_app/app/src/main/java/com/example/closet/AvatarActivity.java:119-136 | Every selecting entry leads to one of the slot's candidates. |
## Left out

- Firestore, FirebaseAuth, Glide and Picasso calls. A query answer is a sequence of `Loading.Doc` values, in query order.
- Backend query semantics. `orderBy` and `limit` are not computed, and neither is the category query's `whereEqualTo`.
  - The ranked queries' promise is the predicate `Loading.Answers`, taken as a precondition.
  - The category query's `orderBy("Name")` is not modelled.
  - `Likes.ApplyArrayOp`: assumed semantics of `arrayUnion` and `arrayRemove`. They are a backend effect, not app code.
- Asynchronous ordering. The favourites screen issues one fetch per id in parallel. Only the effect of a single completion (`FavouritesActivity.OnFetched`) is modelled, not their interleaving.
- Toasts, logging, navigation, intents, the drawer, and progress-bar visibility. Also `toString`, the `dateAdded` timestamp, and `incrementViewCount`'s backend increment.
- The other screens: MainActivity, LoginActivity, AccountActivity, BaseActivity, AvatarPreviewActivity and ImageAdapter. ImageAdapter is not part of this model.
- Object sharing of items. Java items are mutable objects shared between lists, so `setLikedByCurrentUser` on one is seen through every list holding it. Items here are values, and a like commit is modelled on the item alone (`Likes.OnLikeCompleted`).
- `null` elements inside item lists. ListActivity's `item != null` test is therefore not modelled.
- Passing a `null` list to RowListItemAdapter's copying constructor, which throws.
- Calls to members that do not exist in `ClothingItem.java` or `ItemAdapter.java`:
  - DetailsActivity's `getImageUrls()` and its "clothing_items" collection;
  - AvatarActivity's `getImageUrl()`;
  - the three-argument `ItemAdapter` constructor.

  The model uses `images` and the two-argument constructor instead.
- The Picasso image the avatar chooser loads for a selection.
- AvatarActivity.Candidates: computes the avatar query's `whereEqualTo("Category")` and `whereArrayContains("likedUsers")` as a filter over the whole collection. It assumes the backend returns the matches in collection order.
- The layout's initial panel visibility on the details screen.
- TopPicksActivity.OnCallback: states the screen with the corrected `updateItems`. As written, line 122 empties `filteredList` and the adapter (`TopPicksActivity.LoadAsWrittenEmptiesFilteredList`).
- TopPicksActivity.FilterTopPicks: states the screen with the corrected `updateItems`. As written, every search shows no rows and the empty state (`TopPicksActivity.FilterTopPicksAsWritten`).
- MostViewedActivity.OnLoaded: states the screen with the corrected `updateItems`. As written, line 128 empties the list and the adapter (`MostViewedActivity.LoadAsWrittenEmptiesList`).
- MostViewedActivity.OnLoaded: a document on which `toObject` or the `likedUsers` cast throws is treated like one that yields `null`. In the code the exception escapes the listener.
- FavouritesActivity.OnFetched: states the screen with the corrected `updateItems`. As written, each fetch empties `filteredList` (`FavouritesActivity.FetchAsWrittenEmptiesFiltered`).
- FavouritesActivity.OnFetched: a document on which `toObject` throws is treated like one that yields `null`. In the code the exception escapes the listener.
- FavouritesActivity.FilterFavourites: states the screen with the corrected `updateItems`. As written, each search empties `filteredList` (`FavouritesActivity.FilterAsWrittenEmptiesFiltered`).
- FavouritesActivity.FilterPreservesInv: "the filtered list holds the matches" is about the corrected screen. As written, nothing is shown.
- TopPicksManager.LoadTopPicks: a document on which `toObject` or the `likedUsers` cast throws is treated like one that yields `null`. In the code the exception escapes the success listener, so neither callback runs.
- Loading.LoadLoop: treats a throwing document like a `null` one. That matches ListActivity's category load, which catches the exception, but not the other loaders.
- ListActivity.OnSearchLoaded: a document on which `toObject` throws is treated like one that yields `null`. In the code the exception escapes the listener.
- `JavaString.ToLower`: does not model Unicode case mapping. Only ASCII letters are lowered.
- `JavaString.StringHashCode`: treats each `char` as one UTF-16 code unit.
- `FavouritesActivity.OnItemLikeAsWritten`: requires a non-null id. The preference store's handling of a `null` key is not modelled.
- `FavouritesActivity.OnItemLikeAsWritten`: when the first `remove` throws, the preference edit is dropped. Whether the second list was already changed before the throw is not tracked.

## Findings

| source | as written | input that shows it | evidently intended | confidence | as-written member | corrected member |
|---|---|---|---|---|---|---|
| closet_app/app/src/main/java/com/example/closet/ItemAdapter.java:82-88 | ItemAdapter keeps the caller's list. `updateItems(list)` clears its own list, then copies `newItems`. TopPicksActivity, MostViewedActivity and FavouritesActivity each pass the very list the adapter was built on. | Load any non-empty answer on the top-picks or most-viewed screen. The list is cleared before it is copied, so the screen shows nothing. Any search on the top-picks or favourites screen likewise ends with no rows. | The adapter ends up with the contents `newItems` had before the call, as RowListItemAdapter's defensive copy achieves. | medium; not executed. Every caller builds the adapter with a three-argument `ItemAdapter` constructor that ItemAdapter.java does not declare (TopPicksActivity.java:84, MostViewedActivity.java:98, FavouritesActivity.java:126); the sharing rests on the two-argument constructor at ItemAdapter.java:48-51. | Adapters.ItemAdapterSelfUpdateEmpties | Adapters.UpdateItemsSnapshot |
| closet_app/app/src/main/java/com/example/closet/ListActivity.java:120-121 | The search-only load clears `clothingItems` and fills only `filteredItems`. `filterItems` always filters `clothingItems`. | After a search that found items, type or clear one character in the search bar. The list empties and the empty state shows. | Editing the query filters the search results. | medium; not executed | ListActivity.SearchThenEditShowsNothing | ListActivity.OnSearchLoadedKeepingResults |
| closet_app/app/src/main/java/com/example/closet/FavouritesActivity.java:214-216 | An unlike removes index `position` from both `favouritesList` and `filteredList`. `position` is an index into the filtered list. | Favourites A and B, with a search showing only B. Unlike B at position 0. A leaves the favourites and B stays, while B's preference is deleted. | An unlike removes the unliked item from each list. | medium; not executed. As written, row 1 keeps `filteredList` empty, so this input can only arise once row 1 is fixed. | FavouritesActivity.UnlikeDuringSearchRemovesWrongItem | FavouritesActivity.OnItemLikeById |
