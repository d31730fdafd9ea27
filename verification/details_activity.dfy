/** The details screen (DetailsActivity): the missing-id guard, the three
    mutually exclusive info panels, and the image slider's arrows and
    position dots. */
module DetailsActivity {
  import opened JavaLang
  import opened Clothing

  // ---------------------------------------------------------------------
  // Opening

  /** What `onCreate` does with the `ITEM_ID` extra: finish at once, or
      load the item and bump its view count. */
  datatype OpenAction = Finish | LoadAndCount(itemId: string)

  function Open(itemId: JString): (a: OpenAction)
    ensures a.Finish? <==> itemId.Null? || itemId.value == ""
    ensures a.LoadAndCount? ==> a.itemId == itemId.value && a.itemId != ""
  {
    if itemId.Null? || itemId.value == "" then Finish else LoadAndCount(itemId.value)
  }

  /** The slider is set up only for a non-null, non-empty image list. */
  function ShouldSetupSlider(images: Nullable<seq<JString>>): (b: bool)
    ensures b <==> images.NonNull? && |images.value| > 0
  {
    images.NonNull? && images.value != []
  }

  // ---------------------------------------------------------------------
  // Info panels

  datatype Panel = FabricPanel | FitPanel | CarePanel

  /** Which of the three text panels are visible. */
  datatype Panels = Panels(fabric: bool, fit: bool, care: bool)

  function Visible(p: Panels, w: Panel): bool {
    match w
    case FabricPanel => p.fabric
    case FitPanel => p.fit
    case CarePanel => p.care
  }

  /** At most one panel shows. */
  predicate AtMostOneVisible(p: Panels) {
    forall a: Panel, b: Panel :: Visible(p, a) && Visible(p, b) ==> a == b
  }

  /** `toggleVisibility(panel)`: flip that panel; if it was hidden (so is
      now shown), hide the other two. */
  function Toggle(p: Panels, w: Panel): (r: Panels)
    ensures Visible(r, w) == !Visible(p, w)
    ensures !Visible(p, w) ==> forall o :: o != w ==> !Visible(r, o)
    ensures Visible(p, w) ==> forall o :: o != w ==> Visible(r, o) == Visible(p, o)
  {
    var opening := !Visible(p, w);
    match w
    case FabricPanel => if opening then Panels(true, false, false) else p.(fabric := false)
    case FitPanel => if opening then Panels(false, true, false) else p.(fit := false)
    case CarePanel => if opening then Panels(false, false, true) else p.(care := false)
  }

  /** Toggling keeps at most one panel showing: opening leaves only the
      opened panel, closing only removes one. */
  lemma ToggleKeepsAtMostOne(p: Panels, w: Panel)
    requires AtMostOneVisible(p)
    ensures AtMostOneVisible(Toggle(p, w))
  {
    var r := Toggle(p, w);
    forall a: Panel, b: Panel | Visible(r, a) && Visible(r, b) ensures a == b {
      if Visible(p, w) {
        assert a != w && b != w;
        assert Visible(p, a) && Visible(p, b);
      }
    }
  }

  /** Opening a panel and closing it again returns to the start, when no
      other panel was showing. */
  lemma ToggleTwiceRestores(p: Panels, w: Panel)
    requires forall o :: o != w ==> !Visible(p, o)
    ensures Toggle(Toggle(p, w), w) == p
  {
    assert w != FabricPanel ==> !Visible(p, FabricPanel);
    assert w != FitPanel ==> !Visible(p, FitPanel);
    assert w != CarePanel ==> !Visible(p, CarePanel);
  }

  // ---------------------------------------------------------------------
  // Slider arrows

  /** The left arrow: back one page unless on the first. */
  function ArrowLeft(page: nat): (r: nat)
    ensures page > 0 ==> r == page - 1
    ensures page == 0 ==> r == 0
  {
    if page > 0 then page - 1 else page
  }

  /** The right arrow: forward one page unless on the last of `size`. */
  function ArrowRight(page: nat, size: nat): (r: nat)
    ensures page + 1 < size ==> r == page + 1
    ensures page + 1 >= size ==> r == page
  {
    if page < size - 1 then page + 1 else page
  }

  datatype Arrow = Left | Right

  function Press(page: nat, size: nat, a: Arrow): nat {
    match a
    case Left => ArrowLeft(page)
    case Right => ArrowRight(page, size)
  }

  /** The page after a run of arrow presses. */
  function PressAll(page: nat, size: nat, arrows: seq<Arrow>): nat
    decreases |arrows|
  {
    if arrows == [] then page else PressAll(Press(page, size, arrows[0]), size, arrows[1..])
  }

  /** From a page on the slider, any run of presses stays on the slider. */
  lemma {:induction false} PressAllInRange(page: nat, size: nat, arrows: seq<Arrow>)
    requires page < size
    ensures PressAll(page, size, arrows) < size
    decreases |arrows|
  {
    if arrows != [] {
      PressAllInRange(Press(page, size, arrows[0]), size, arrows[1..]);
    }
  }

  /** Right then left returns to the page, except on the last page. */
  lemma RightThenLeft(page: nat, size: nat)
    requires page + 1 < size
    ensures ArrowLeft(ArrowRight(page, size)) == page
  {
  }

  /** `k` presses of the right arrow from page `page` reach page
      `min(page + k, size - 1)`. */
  lemma {:induction false} RightPressesSaturate(size: nat, k: nat, page: nat)
    requires 0 < size && page < size
    ensures PressAll(page, size, seq(k, _ => Right)) == if page + k < size then page + k else size - 1
    decreases k
  {
    var arrows := seq(k, _ => Right);
    if k > 0 {
      assert arrows[0] == Right;
      assert arrows[1..] == seq(k - 1, _ => Right);
      RightPressesSaturate(size, k - 1, ArrowRight(page, size));
    }
  }

  // ---------------------------------------------------------------------
  // Position dots

  /** `true` marks the active (`dot_open`) dot. */
  function CountActive(dots: seq<bool>): nat
    decreases |dots|
  {
    if dots == [] then 0 else (if dots[|dots| - 1] then 1 else 0) + CountActive(dots[..|dots| - 1])
  }

  /** A dot row with only dot `k` active has exactly one active dot. */
  lemma {:induction false} OnlyOneActive(dots: seq<bool>, k: nat)
    requires k < |dots| && dots[k]
    requires forall i :: 0 <= i < |dots| && i != k ==> !dots[i]
    ensures CountActive(dots) == 1
    decreases |dots|
  {
    var n := |dots| - 1;
    if k == n {
      NoneActive(dots[..n]);
    } else {
      OnlyOneActive(dots[..n], k);
    }
  }

  lemma {:induction false} NoneActive(dots: seq<bool>)
    requires forall i :: 0 <= i < |dots| ==> !dots[i]
    ensures CountActive(dots) == 0
    decreases |dots|
  {
    if dots != [] {
      NoneActive(dots[..|dots| - 1]);
    }
  }

  /** The dots `setupImageSlider` creates: all unseen, then dot 0 open when
      there is at least one. */
  function InitialDots(n: nat): (dots: seq<bool>)
    ensures |dots| == n
    ensures n > 0 ==> dots[0] && CountActive(dots) == 1
    ensures forall i :: 0 < i < n ==> !dots[i]
  {
    var dots := seq(n, i => i == 0);
    if n > 0 then OnlyOneActive(dots, 0); dots else dots
  }

  /** `onPageSelected(position)`: the loop that opens dot `position` and
      closes every other. */
  method OnPageSelected(n: nat, position: int) returns (dots: seq<bool>)
    ensures |dots| == n
    ensures forall i :: 0 <= i < n ==> (dots[i] <==> i == position)
    ensures 0 <= position < n ==> CountActive(dots) == 1
    ensures !(0 <= position < n) ==> CountActive(dots) == 0
  {
    dots := [];
    var i := 0;
    while i < n
      invariant 0 <= i <= n
      invariant |dots| == i
      invariant forall j :: 0 <= j < i ==> (dots[j] <==> j == position)
    {
      dots := dots + [i == position];
      i := i + 1;
    }
    if 0 <= position < n {
      OnlyOneActive(dots, position);
    } else {
      NoneActive(dots);
    }
  }
}
