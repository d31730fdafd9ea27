/** The avatar builder (AvatarActivity): five fixed category slots; tapping
    one lists the current user's liked items of that category in a
    chooser headed by "None", and the choice either resets the slot or
    selects an item. */
module AvatarActivity {
  import opened JavaLang
  import opened Clothing
  import opened Subsequence

  /** The slots' categories, top to bottom. */
  const Slots: seq<string> := ["Headwear", "Jewellery", "Shirts", "Pants", "Shoes"]

  /** Five slots, each bound to a different category. */
  lemma SlotsAreDistinct()
    ensures |Slots| == 5
    ensures forall i, j :: 0 <= i < j < |Slots| ==> Slots[i] != Slots[j]
  {
  }

  /** The query's condition: the item's category is the slot's and the
      user is among the item's `likedUsers`. */
  predicate IsCandidate(item: ClothingItem, category: string, uid: string) {
    item.category == NonNull(category) && item.likedUsers.NonNull? && uid in item.likedUsers.value
  }

  function CandidateTest(category: string, uid: string): ClothingItem -> bool {
    (x: ClothingItem) => IsCandidate(x, category, uid)
  }

  /** The chooser's items: the clothes matching the slot's query, in the
      order the backend returns them. */
  function Candidates(clothes: seq<ClothingItem>, category: string, uid: string): (r: seq<ClothingItem>)
    ensures IsSubseq(r, clothes)
    ensures forall x :: x in r <==> x in clothes && x.category == NonNull(category)
                                    && LikedBy(NonNull(uid), x.likedUsers)
  {
    FilterMembers(clothes, CandidateTest(category, uid));
    Filter(clothes, CandidateTest(category, uid))
  }

  /** The chooser's labels: "None", then each item's name in order (a
      `null` name stays `null`). */
  function ChooserNames(items: seq<ClothingItem>): (names: seq<JString>)
    ensures |names| == |items| + 1
    ensures names[0] == NonNull("None")
    ensures forall k :: 0 <= k < |items| ==> names[k + 1] == items[k].name
  {
    [NonNull("None")] + seq(|items|, k requires 0 <= k < |items| => items[k].name)
  }

  /** What picking entry `which` does to the slot. */
  datatype Choice = ResetToAdd | Selected(item: ClothingItem)

  /** `which == 0` resets the slot to the "+" icon; any other entry selects
      `items[which - 1]`. */
  function Choose(items: seq<ClothingItem>, which: nat): (c: Choice)
    requires which < |items| + 1
    ensures which == 0 <==> c.ResetToAdd?
    ensures which > 0 ==> c.item == items[which - 1]
  {
    if which == 0 then ResetToAdd else Selected(items[which - 1])
  }

  /** The label the user taps and the item selected agree: entry `k + 1`
      is labelled with the name of the item it selects, and every item is
      reachable from exactly its own entry. */
  lemma ChooserLabelsMatchSelection(items: seq<ClothingItem>, which: nat)
    requires 0 < which < |items| + 1
    ensures ChooserNames(items)[which] == Choose(items, which).item.name
    ensures Choose(items, which) == Selected(items[which - 1])
  {
  }

  /** Every entry of the chooser leads to one of the slot's candidates or
      to the reset. */
  lemma ChoiceIsCandidate(clothes: seq<ClothingItem>, category: string, uid: string, which: nat)
    requires which < |Candidates(clothes, category, uid)| + 1
    ensures var c := Choose(Candidates(clothes, category, uid), which);
            c.Selected? ==> c.item in clothes && IsCandidate(c.item, category, uid)
  {
    var items := Candidates(clothes, category, uid);
    if which > 0 {
      assert items[which - 1] in items;
    }
  }
}
