/**
 A responsive paged carousel: a fixed list of items shown a page at a time,
 the page size chosen from the viewport width by a breakpoint table. The
 user pages with previous/next buttons that wrap around, jumps with the
 dot indicators, or flings the page with a drag gesture. After a resize
 that leaves the page past the end, the page is pulled back to the last one.

 The carousel only needs the number of items; the visible window is a JS
 `Array.prototype.slice` of the list.
 */
module Carousel {

  /** Items per page; every breakpoint table in use gives a positive size. */
  type PageSize = n: int | n >= 1 witness 1

  /** Page sizes for wide, medium and narrow viewports. */
  datatype Breakpoints = Breakpoints(desktop: PageSize, tablet: PageSize, mobile: PageSize)

  const DesktopMinWidth := 1024
  const TabletMinWidth := 768

  /** The resize handler's choice of page size for a viewport `width` pixels wide. */
  function ItemsPerPage(bp: Breakpoints, width: int): (p: PageSize)
    ensures width >= DesktopMinWidth ==> p == bp.desktop
    ensures TabletMinWidth <= width < DesktopMinWidth ==> p == bp.tablet
    ensures width < TabletMinWidth ==> p == bp.mobile
  {
    if width >= DesktopMinWidth then bp.desktop
    else if width >= TabletMinWidth then bp.tablet
    else bp.mobile
  }

  /** With a table that grows with the viewport, a wider viewport never shows fewer items per page. */
  lemma ItemsPerPageMonotone(bp: Breakpoints, narrow: int, wide: int)
    requires bp.mobile <= bp.tablet <= bp.desktop
    requires narrow <= wide
    ensures ItemsPerPage(bp, narrow) <= ItemsPerPage(bp, wide)
  {
  }

  /**
   `Math.ceil(count / perPage)`: the fewest pages of `perPage` items that
   hold `count` items.
   */
  function TotalPages(count: nat, perPage: PageSize): (n: nat)
    ensures n * perPage >= count
    ensures n > 0 ==> (n - 1) * perPage < count
  {
    var n := (count + perPage - 1) / perPage;
    CeilDivBounds(count, perPage);
    n
  }

  lemma CeilDivBounds(count: nat, perPage: PageSize)
    ensures (count + perPage - 1) / perPage >= 0
    ensures (count + perPage - 1) / perPage * perPage >= count
    ensures (count + perPage - 1) / perPage > 0 ==> ((count + perPage - 1) / perPage - 1) * perPage < count
  {
    var a := count + perPage - 1;
    var q := a / perPage;
    var r := a % perPage;
    assert a == q * perPage + r && 0 <= r < perPage;
    assert q * perPage == a - r;
    assert (q - 1) * perPage == a - r - perPage;
  }

  /** There is no page at all exactly when there are no items. */
  lemma TotalPagesZero(count: nat, perPage: PageSize)
    ensures TotalPages(count, perPage) == 0 <==> count == 0
  {
  }

  /**
   The carousel's state: page size, current page index, and the direction
   of the last page change (kept only to orient the slide animation).
   */
  datatype CarouselState = CarouselState(itemsPerPage: PageSize, page: int, direction: int)

  function PageCount(s: CarouselState, count: nat): nat {
    TotalPages(count, s.itemsPerPage)
  }

  /** The page is an index of an existing page (or 0 when there are none). */
  predicate PageInRange(s: CarouselState, count: nat) {
    0 <= s.page && (PageCount(s, count) > 0 ==> s.page < PageCount(s, count))
  }

  predicate Valid(s: CarouselState, count: nat) {
    PageInRange(s, count) && s.direction in {-1, 0, 1}
  }

  /**
   The previous/next buttons: step the page by `newDirection`, sending an
   index below 0 to the last page and one past the end to page 0; nothing
   happens when there is at most one page.
   */
  function Paginate(s: CarouselState, count: nat, newDirection: int): (t: CarouselState)
    ensures PageCount(s, count) <= 1 ==> t == s
    ensures PageCount(s, count) > 1 ==>
      0 <= t.page < PageCount(s, count) && t.direction == newDirection
    ensures t.itemsPerPage == s.itemsPerPage
  {
    var totalPages := PageCount(s, count);
    if totalPages <= 1 then s
    else
      var stepped := s.page + newDirection;
      var low := if stepped < 0 then totalPages - 1 else stepped;
      var newPage := if low >= totalPages then 0 else low;
      s.(page := newPage, direction := newDirection)
  }

  /**
   From a page in range, one step either way is the step modulo the page
   count: the last page goes on to page 0 and page 0 goes back to the last.
   */
  lemma PaginateIsModular(s: CarouselState, count: nat, delta: int)
    requires PageInRange(s, count) && PageCount(s, count) > 1
    requires delta == 1 || delta == -1
    ensures Paginate(s, count, delta).page == (s.page + delta) % PageCount(s, count)
    ensures delta == 1 && s.page == PageCount(s, count) - 1 ==> Paginate(s, count, delta).page == 0
    ensures delta == -1 && s.page == 0 ==> Paginate(s, count, delta).page == PageCount(s, count) - 1
    ensures Paginate(s, count, delta).direction == delta
  {
    var n := PageCount(s, count);
    var x := s.page + delta;
    if x < 0 {
      ModUnique(x, n, -1, n - 1);
    } else if x >= n {
      ModUnique(x, n, 1, 0);
    } else {
      ModUnique(x, n, 0, x);
    }
  }

  /** "Previous" undoes "next" and the other way round, as far as the page is concerned. */
  lemma PaginateInverse(s: CarouselState, count: nat, delta: int)
    requires PageInRange(s, count)
    requires delta == 1 || delta == -1
    ensures Paginate(Paginate(s, count, delta), count, -delta).page == s.page
  {
    if PageCount(s, count) > 1 {
      PaginateIsModular(s, count, delta);
      PaginateIsModular(Paginate(s, count, delta), count, -delta);
    }
  }

  /** `k` presses of "next". */
  function Advance(s: CarouselState, count: nat, k: nat): CarouselState
    decreases k
  {
    if k == 0 then s else Paginate(Advance(s, count, k - 1), count, 1)
  }

  lemma MulAtLeast(k: int, n: int)
    requires k >= 1 && n > 0
    ensures k * n >= n
  {
    assert k * n == (k - 1) * n + n;
  }

  /** A remainder is determined by any quotient/remainder split of the dividend. */
  lemma ModUnique(x: int, n: int, q: int, r: int)
    requires n > 0 && 0 <= r < n
    requires x == q * n + r
    ensures x % n == r
  {
    var q' := x / n;
    var r' := x % n;
    assert x == q' * n + r' && 0 <= r' < n;
    assert (q - q') * n == r' - r;
    if q - q' >= 1 {
      MulAtLeast(q - q', n);
    } else if q' - q >= 1 {
      MulAtLeast(q' - q, n);
    }
  }

  lemma ModSucc(a: int, n: int)
    requires n > 0
    ensures (a % n + 1) % n == (a + 1) % n
  {
    var q := a / n;
    var r := a % n;
    assert a == q * n + r && 0 <= r < n;
    if r + 1 < n {
      ModUnique(r + 1, n, 0, r + 1);
      ModUnique(a + 1, n, q, r + 1);
    } else {
      ModUnique(r + 1, n, 1, 0);
      assert a + 1 == (q + 1) * n;
      ModUnique(a + 1, n, q + 1, 0);
    }
  }

  /** After `k` presses of "next" the page has moved `k` places round the cycle. */
  lemma {:induction false} AdvanceIsModular(s: CarouselState, count: nat, k: nat)
    requires PageInRange(s, count) && PageCount(s, count) > 1
    ensures Advance(s, count, k).page == (s.page + k) % PageCount(s, count)
    ensures Advance(s, count, k).itemsPerPage == s.itemsPerPage
    decreases k
  {
    if k == 0 {
      ModUnique(s.page, PageCount(s, count), 0, s.page);
    } else {
      var prev := Advance(s, count, k - 1);
      AdvanceIsModular(s, count, k - 1);
      NextStepModular(prev, count, s.page + (k - 1));
    }
  }

  /** One press of "next" from the page `a mod n` reaches `(a + 1) mod n`. */
  lemma NextStepModular(prev: CarouselState, count: nat, a: int)
    requires PageCount(prev, count) > 1
    requires prev.page == a % PageCount(prev, count)
    ensures Paginate(prev, count, 1).page == (a + 1) % PageCount(prev, count)
    ensures Paginate(prev, count, 1).itemsPerPage == prev.itemsPerPage
  {
    PaginateIsModular(prev, count, 1);
    ModSucc(a, PageCount(prev, count));
  }

  /** Pressing "next" once per page brings the carousel back to the page it started on. */
  lemma FullCycleReturns(s: CarouselState, count: nat)
    requires PageInRange(s, count) && PageCount(s, count) > 1
    ensures Advance(s, count, PageCount(s, count)).page == s.page
  {
    var n := PageCount(s, count);
    AdvanceIsModular(s, count, n);
    ModUnique(s.page + n, n, 1, s.page);
  }

  /**
   The effect that runs after a page-size change: a page past the end is
   pulled back to the last page, with no slide direction.
   */
  function Clamp(s: CarouselState, count: nat): (t: CarouselState)
    ensures s.page >= 0 ==> PageInRange(t, count)
    ensures PageInRange(s, count) ==> t == s
    ensures !PageInRange(s, count) && s.page >= 0 ==>
      t == s.(page := PageCount(s, count) - 1, direction := 0)
  {
    var totalPages := PageCount(s, count);
    if s.page >= totalPages && totalPages > 0 then s.(page := totalPages - 1, direction := 0)
    else s
  }

  lemma ClampIdempotent(s: CarouselState, count: nat)
    requires s.page >= 0
    ensures Clamp(Clamp(s, count), count) == Clamp(s, count)
  {
  }

  /** A viewport resize: pick the page size for the new width, then clamp. */
  function Resize(s: CarouselState, bp: Breakpoints, width: int, count: nat): (t: CarouselState)
    requires s.page >= 0
    ensures t.itemsPerPage == ItemsPerPage(bp, width)
    ensures PageInRange(t, count)
    ensures t.page <= s.page
    ensures t.page == s.page || t.direction == 0
  {
    Clamp(s.(itemsPerPage := ItemsPerPage(bp, width)), count)
  }

  /** Clicking dot `index`: jump there, sliding forward only if it lies after the current page. */
  function SelectDot(s: CarouselState, index: int): (t: CarouselState)
    ensures t.page == index && t.itemsPerPage == s.itemsPerPage
    ensures t.direction == 1 <==> index > s.page
    ensures t.direction == -1 <==> index <= s.page
  {
    var newDirection := if index > s.page then 1 else -1;
    s.(page := index, direction := newDirection)
  }

  /** Which dots are highlighted: one per page, lit when it is the current page. */
  function Dots(s: CarouselState, count: nat): (dots: seq<bool>)
    ensures |dots| == PageCount(s, count)
    ensures forall i :: 0 <= i < |dots| ==> (dots[i] <==> i == s.page)
  {
    seq(PageCount(s, count), i => i == s.page)
  }

  /** With a page in range and at least one page, exactly one dot is lit. */
  lemma ExactlyOneDot(s: CarouselState, count: nat)
    requires PageInRange(s, count) && PageCount(s, count) > 0
    ensures exists i :: 0 <= i < |Dots(s, count)| && Dots(s, count)[i]
    ensures forall i, j ::
      (0 <= i < |Dots(s, count)| && 0 <= j < |Dots(s, count)| && Dots(s, count)[i] && Dots(s, count)[j]) ==> i == j
  {
    assert Dots(s, count)[s.page];
  }

  /** The buttons and dots are drawn, and the page can be dragged, only with more than one page. */
  predicate ControlsShown(s: CarouselState, count: nat) {
    PageCount(s, count) > 1
  }

  /**
   With a single page (or none) the buttons and dots are not drawn and a
   drag does nothing: only a resize can change the carousel.
   */
  lemma SinglePageIsStatic(s: CarouselState, bp: Breakpoints, count: nat, e: CarouselEvent)
    requires s.page >= 0 && !ControlsShown(s, count)
    requires !e.ViewportResized?
    ensures Dispatch(s, bp, count, e) == s
  {
  }

  // --- Drag gesture ---

  const SwipeConfidenceThreshold: real := 10000.0

  function Abs(x: real): (r: real)
    ensures r >= 0.0 && (r == x || r == -x)
  {
    if x < 0.0 then -x else x
  }

  /** How hard a drag was flung: distance times signed release speed. */
  function SwipePower(offset: real, velocity: real): real {
    Abs(offset) * velocity
  }

  datatype Swipe = SwipeNext | SwipePrev | NoSwipe

  function SwipeOf(offset: real, velocity: real): Swipe {
    var swipe := SwipePower(offset, velocity);
    if swipe < -SwipeConfidenceThreshold then SwipeNext
    else if swipe > SwipeConfidenceThreshold then SwipePrev
    else NoSwipe
  }

  /**
   The direction of a fling is the sign of its release velocity; whether it
   counts depends on distance times speed passing the threshold.
   */
  lemma SwipeBySign(offset: real, velocity: real)
    ensures SwipeOf(offset, velocity) == SwipeNext <==>
      velocity < 0.0 && Abs(offset) * -velocity > SwipeConfidenceThreshold
    ensures SwipeOf(offset, velocity) == SwipePrev <==>
      velocity > 0.0 && Abs(offset) * velocity > SwipeConfidenceThreshold
    ensures SwipeOf(offset, velocity) == NoSwipe <==>
      Abs(offset) * Abs(velocity) <= SwipeConfidenceThreshold
  {
    var a := Abs(offset);
    if velocity < 0.0 {
      assert a * velocity == -(a * -velocity);
      assert Abs(velocity) == -velocity;
    } else if velocity > 0.0 {
      assert Abs(velocity) == velocity;
      assert a * velocity >= 0.0;
    } else {
      assert a * velocity == 0.0;
      assert a * Abs(velocity) == 0.0;
    }
  }

  /** A drag released 5 px left at 3000 px/s has power 15000 and pages back. */
  lemma SwipeExamples()
    ensures SwipePower(-5.0, 3000.0) == 15000.0
    ensures SwipeOf(-5.0, 3000.0) == SwipePrev
    ensures SwipeOf(5.0, -3000.0) == SwipeNext
    ensures SwipeOf(5.0, 500.0) == NoSwipe
  {
  }

  /** The drag-release handler: fling to the next or previous page, or snap back. */
  function DragEnd(s: CarouselState, count: nat, offset: real, velocity: real): (t: CarouselState)
    ensures PageCount(s, count) <= 1 ==> t == s
    ensures SwipeOf(offset, velocity) == NoSwipe ==> t == s
    ensures SwipeOf(offset, velocity) == SwipeNext ==> t == Paginate(s, count, 1)
    ensures SwipeOf(offset, velocity) == SwipePrev ==> t == Paginate(s, count, -1)
  {
    if PageCount(s, count) <= 1 then s
    else
      match SwipeOf(offset, velocity)
      case SwipeNext => Paginate(s, count, 1)
      case SwipePrev => Paginate(s, count, -1)
      case NoSwipe => s
  }

  // --- Visible window ---

  /** Where a (possibly negative) slice bound lands in a list of `len` items, as JS computes it. */
  function SliceIndex(k: int, len: nat): (r: nat)
    ensures r <= len
    ensures 0 <= k <= len ==> r == k
  {
    if k < 0 then (if len + k < 0 then 0 else len + k)
    else if k > len then len
    else k
  }

  /** `xs.slice(start, end)` in JS: bounds clamped into the list, empty when they cross. */
  function JsSlice<T>(xs: seq<T>, start: int, end: int): (r: seq<T>)
    ensures |r| <= |xs|
    ensures 0 <= start <= end <= |xs| ==> r == xs[start..end]
    ensures 0 <= start <= |xs| <= end ==> r == xs[start..]
    ensures |xs| <= start ==> r == []
  {
    var from := SliceIndex(start, |xs|);
    var to := SliceIndex(end, |xs|);
    if from < to then xs[from..to] else []
  }

  function Min(a: int, b: int): int {
    if a < b then a else b
  }

  /** Items shown on page `page` when each page holds `perPage` items. */
  function PageItems<T>(items: seq<T>, perPage: PageSize, page: int): seq<T> {
    JsSlice(items, page * perPage, (page + 1) * perPage)
  }

  /** The items the carousel currently shows. */
  function CurrentItems<T>(items: seq<T>, s: CarouselState): seq<T> {
    PageItems(items, s.itemsPerPage, s.page)
  }

  /**
   A page in range shows the items from `page*perPage` up to the next page's
   start or the end of the list: at least one item, at most a page's worth.
   */
  lemma PageItemsInRange<T>(items: seq<T>, perPage: PageSize, page: int)
    requires 0 <= page < TotalPages(|items|, perPage)
    ensures page * perPage < |items|
    ensures PageItems(items, perPage, page) == items[page * perPage .. Min((page + 1) * perPage, |items|)]
    ensures 1 <= |PageItems(items, perPage, page)| <= perPage
  {
    var n := TotalPages(|items|, perPage);
    assert page <= n - 1;
    assert page * perPage <= (n - 1) * perPage;
    assert (page + 1) * perPage == page * perPage + perPage;
  }

  /** A page past the end shows nothing: the blank page the clamp effect avoids. */
  lemma PageItemsPastEnd<T>(items: seq<T>, perPage: PageSize, page: int)
    requires page >= TotalPages(|items|, perPage)
    ensures PageItems(items, perPage, page) == []
  {
    var n := TotalPages(|items|, perPage);
    assert page * perPage >= n * perPage;
  }

  /** The last page holds what the full pages before it leave over. */
  lemma LastPageLength<T>(items: seq<T>, perPage: PageSize)
    requires |items| > 0
    ensures |PageItems(items, perPage, TotalPages(|items|, perPage) - 1)|
      == |items| - perPage * (TotalPages(|items|, perPage) - 1)
  {
    var n := TotalPages(|items|, perPage);
    PageItemsInRange(items, perPage, n - 1);
    assert n * perPage == (n - 1) * perPage + perPage;
  }

  /** The first `n` pages laid end to end. */
  function PagesUpTo<T>(items: seq<T>, perPage: PageSize, n: nat): seq<T>
    decreases n
  {
    if n == 0 then [] else PagesUpTo(items, perPage, n - 1) + PageItems(items, perPage, n - 1)
  }

  lemma {:induction false} PagesUpToPrefix<T>(items: seq<T>, perPage: PageSize, n: nat)
    ensures PagesUpTo(items, perPage, n) == items[..Min(n * perPage, |items|)]
    decreases n
  {
    if n > 0 {
      PagesUpToPrefix(items, perPage, n - 1);
      var lo := Min((n - 1) * perPage, |items|);
      var hi := Min(n * perPage, |items|);
      assert n * perPage == (n - 1) * perPage + perPage;
      assert lo <= hi;
      if (n - 1) * perPage <= |items| {
        assert PageItems(items, perPage, n - 1) == items[lo..hi];
      } else {
        assert PageItems(items, perPage, n - 1) == [];
        assert lo == hi;
      }
      assert items[..lo] + items[lo..hi] == items[..hi];
    }
  }

  /** Reading every page in order gives back the whole list, each item once. */
  lemma PagesConcatenate<T>(items: seq<T>, perPage: PageSize)
    ensures PagesUpTo(items, perPage, TotalPages(|items|, perPage)) == items
  {
    PagesUpToPrefix(items, perPage, TotalPages(|items|, perPage));
  }

  // --- Events ---

  /** What a user (or the browser) can do to the carousel. */
  datatype CarouselEvent =
    | ViewportResized(width: int)
    | PrevClicked
    | NextClicked
    | DotClicked(index: int)
    | DragReleased(offset: real, velocity: real)

  /**
   One event. The buttons and dots exist only when there is more than one
   page, and there is one dot per page; an event from an absent control
   changes nothing.
   */
  function Dispatch(s: CarouselState, bp: Breakpoints, count: nat, e: CarouselEvent): CarouselState
    requires s.page >= 0
  {
    match e
    case ViewportResized(width) => Resize(s, bp, width, count)
    case PrevClicked => if ControlsShown(s, count) then Paginate(s, count, -1) else s
    case NextClicked => if ControlsShown(s, count) then Paginate(s, count, 1) else s
    case DotClicked(index) =>
      if ControlsShown(s, count) && 0 <= index < PageCount(s, count) then SelectDot(s, index) else s
    case DragReleased(offset, velocity) => DragEnd(s, count, offset, velocity)
  }

  lemma DispatchPreservesValid(s: CarouselState, bp: Breakpoints, count: nat, e: CarouselEvent)
    requires Valid(s, count)
    ensures Valid(Dispatch(s, bp, count, e), count)
  {
  }

  function Run(s: CarouselState, bp: Breakpoints, count: nat, es: seq<CarouselEvent>): CarouselState
    requires Valid(s, count)
    decreases |es|
  {
    if es == [] then s
    else
      DispatchPreservesValid(s, bp, count, es[0]);
      Run(Dispatch(s, bp, count, es[0]), bp, count, es[1..])
  }

  /**
   The carousel as first rendered: the default page size and page 0, then the
   mount-time resize check for the actual viewport.
   */
  function Mount(bp: Breakpoints, initialPerPage: PageSize, width: int, count: nat): (s: CarouselState)
    ensures Valid(s, count) && s.page == 0 && s.itemsPerPage == ItemsPerPage(bp, width)
  {
    Resize(CarouselState(initialPerPage, 0, 0), bp, width, count)
  }

  lemma {:induction false} RunPreservesValid(s: CarouselState, bp: Breakpoints, count: nat, es: seq<CarouselEvent>)
    requires Valid(s, count)
    ensures Valid(Run(s, bp, count, es), count)
    decreases |es|
  {
    if es != [] {
      DispatchPreservesValid(s, bp, count, es[0]);
      RunPreservesValid(Dispatch(s, bp, count, es[0]), bp, count, es[1..]);
    }
  }

  /**
   Whatever happens after mounting, the page indexes an existing page
   whenever there is one, so a non-empty list never shows an empty window.
   */
  lemma ReachableWindowNonEmpty<T>(items: seq<T>, bp: Breakpoints, initialPerPage: PageSize, width: int,
                                   es: seq<CarouselEvent>)
    requires |items| > 0
    ensures Valid(Run(Mount(bp, initialPerPage, width, |items|), bp, |items|, es), |items|)
    ensures 1 <= |CurrentItems(items, Run(Mount(bp, initialPerPage, width, |items|), bp, |items|, es))|
  {
    var s := Run(Mount(bp, initialPerPage, width, |items|), bp, |items|, es);
    RunPreservesValid(Mount(bp, initialPerPage, width, |items|), bp, |items|, es);
    TotalPagesZero(|items|, s.itemsPerPage);
    PageItemsInRange(items, s.itemsPerPage, s.page);
  }
}
