/**
 The directory of health insurers ("Isapres"): seven cards, shown six, four
 or two at a time on desktop, tablet and phone viewports.
 */
module Isapres {
  import opened Carousel

  const IsapreBreakpoints := Breakpoints(6, 4, 2)

  /** Page size before the first resize check runs. */
  const InitialItemsPerPage: PageSize := 6

  /** The seven insurers, identified by their ids; the carousel only needs their order and number. */
  const IsapreIds: seq<int> := [1, 2, 3, 4, 5, 6, 7]

  /** Six per page from 1024 px, four from 768 px, two below. */
  lemma IsapreBreakpointPolicy(width: int)
    ensures width >= 1024 ==> ItemsPerPage(IsapreBreakpoints, width) == 6
    ensures 768 <= width < 1024 ==> ItemsPerPage(IsapreBreakpoints, width) == 4
    ensures width < 768 ==> ItemsPerPage(IsapreBreakpoints, width) == 2
  {
  }

  /**
   Seven cards make two, two and four pages at six, four and two per page;
   the last page holds one, three and one card, and the pages read in order
   give back all seven.
   */
  lemma IsaprePageCounts()
    ensures TotalPages(|IsapreIds|, 6) == 2
    ensures TotalPages(|IsapreIds|, 4) == 2
    ensures TotalPages(|IsapreIds|, 2) == 4
    ensures PageItems(IsapreIds, 6, 1) == [7]
    ensures PageItems(IsapreIds, 4, 1) == [5, 6, 7]
    ensures PageItems(IsapreIds, 2, 3) == [7]
    ensures PagesUpTo(IsapreIds, 6, 2) == IsapreIds
    ensures PagesUpTo(IsapreIds, 4, 2) == IsapreIds
    ensures PagesUpTo(IsapreIds, 2, 4) == IsapreIds
  {
    PagesConcatenate(IsapreIds, 6);
    PagesConcatenate(IsapreIds, 4);
    PagesConcatenate(IsapreIds, 2);
  }

  /**
   On a phone at the fourth page, widening the window to desktop leaves two
   pages; the page is pulled back to the second, with no slide direction.
   Before the clamp, the fourth page at six per page would be empty.
   */
  lemma ResizeClampsPage()
    ensures PageItems(IsapreIds, 6, 3) == []
    ensures Resize(CarouselState(2, 3, 1), IsapreBreakpoints, 1280, |IsapreIds|) == CarouselState(6, 1, 0)
    ensures CurrentItems(IsapreIds, CarouselState(6, 1, 0)) == [7]
  {
  }

  /** Flinging left on a phone from the last page wraps to the first; a feeble drag does nothing. */
  lemma IsapreSwipes()
    ensures DragEnd(CarouselState(2, 3, 0), |IsapreIds|, 5.0, -3000.0) == CarouselState(2, 0, 1)
    ensures DragEnd(CarouselState(2, 3, 0), |IsapreIds|, 5.0, 500.0) == CarouselState(2, 3, 0)
  {
  }

  /** A dot click on a two-page desktop directory lands exactly on that page. */
  lemma IsapreDotClick(i: int)
    requires 0 <= i < 2
    ensures Dispatch(CarouselState(6, 0, 0), IsapreBreakpoints, |IsapreIds|, DotClicked(i)).page == i
    ensures Dots(CarouselState(6, i, 0), |IsapreIds|) == (if i == 0 then [true, false] else [false, true])
  {
    assert PageCount(CarouselState(6, 0, 0), |IsapreIds|) == 2;
  }
}
