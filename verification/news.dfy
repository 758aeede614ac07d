/**
 The news carousel: three articles, shown three, two or one at a time on
 desktop, tablet and phone viewports.
 */
module News {
  import opened Carousel

  const NewsBreakpoints := Breakpoints(3, 2, 1)

  /** Page size before the first resize check runs. */
  const InitialItemsPerPage: PageSize := 3

  /** The articles, identified by their ids; the carousel only needs their order and number. */
  const NewsItemIds: seq<int> := [1, 2, 3]

  /** Three per page from 1024 px, two from 768 px, one below; never an empty page size. */
  lemma NewsBreakpointPolicy(width: int)
    ensures width >= 1024 ==> ItemsPerPage(NewsBreakpoints, width) == 3
    ensures 768 <= width < 1024 ==> ItemsPerPage(NewsBreakpoints, width) == 2
    ensures width < 768 ==> ItemsPerPage(NewsBreakpoints, width) == 1
    ensures ItemsPerPage(NewsBreakpoints, width) >= 1
  {
  }

  /** Three articles make one, two or three pages; the last page holds 3, 1 and 1 of them. */
  lemma NewsPageCounts()
    ensures TotalPages(|NewsItemIds|, 3) == 1
    ensures PageItems(NewsItemIds, 3, 0) == NewsItemIds
    ensures TotalPages(|NewsItemIds|, 2) == 2
    ensures TotalPages(|NewsItemIds|, 1) == 3
    ensures PageItems(NewsItemIds, 2, 1) == [3]
    ensures PageItems(NewsItemIds, 1, 2) == [3]
  {
  }

  /**
   On a desktop viewport all three articles fit on one page, so the
   controls are hidden and no click or drag moves the carousel.
   */
  lemma DesktopIsStatic(s: CarouselState, width: int, e: CarouselEvent)
    requires width >= DesktopMinWidth
    requires s.itemsPerPage == ItemsPerPage(NewsBreakpoints, width) && Valid(s, |NewsItemIds|)
    requires !e.ViewportResized?
    ensures !ControlsShown(s, |NewsItemIds|)
    ensures Dispatch(s, NewsBreakpoints, |NewsItemIds|, e) == s
    ensures CurrentItems(NewsItemIds, s) == NewsItemIds
  {
    assert PageCount(s, |NewsItemIds|) == 1;
  }

  /** On a phone, "next" from the last article wraps round to the first. */
  lemma PhoneWrapsForward()
    ensures Paginate(CarouselState(1, 2, 1), |NewsItemIds|, 1) == CarouselState(1, 0, 1)
    ensures Paginate(CarouselState(1, 0, 0), |NewsItemIds|, -1) == CarouselState(1, 2, -1)
  {
  }

  /** Every reachable news carousel shows at least one article, and the pages together list them all. */
  lemma NewsAlwaysShowsArticles(width: int, es: seq<CarouselEvent>, perPage: PageSize)
    ensures 1 <= |CurrentItems(NewsItemIds,
      Run(Mount(NewsBreakpoints, InitialItemsPerPage, width, |NewsItemIds|), NewsBreakpoints, |NewsItemIds|, es))|
    ensures PagesUpTo(NewsItemIds, perPage, TotalPages(|NewsItemIds|, perPage)) == NewsItemIds
  {
    ReachableWindowNonEmpty(NewsItemIds, NewsBreakpoints, InitialItemsPerPage, width, es);
    PagesConcatenate(NewsItemIds, perPage);
  }
}
