/** The catalogue component: six pieces of view state (category, price
    range, the price and title sort directions, current page, items per
    page), the handlers that update them, and the window of rows shown for
    the current page. The body only shows the selected category and price
    range in its select boxes and ignores the sort directions; none of them
    is applied to the rows: the page is cut from the rows exactly as they
    were given. */
module Catalogue {
  import opened Types
  import opened Direction
  import Footer
  import Header

  datatype ViewState = ViewState(
    category: string,
    priceRange: string,
    priceDirection: SortDirection,
    titleDirection: SortDirection,
    currentPage: int,
    itemsPerPage: int)

  /** The state when the catalogue first renders. */
  const Initial: ViewState := ViewState("", "", Unsorted, Unsorted, 1, 20)

  /** The catalogue's handlers, each with its argument. */
  datatype Handler =
    | CategoryChange(category: string)
    | PriceRangeChange(priceRange: string)
    | SortPrice
    | SortTitle
    | PageChange(pageNumber: int)
    | ItemsPerPageChange(itemsPerPage: int)

  /** At most one of the two sort directions is set. */
  predicate SortsExclusive(s: ViewState)
  {
    s.priceDirection == Unsorted || s.titleDirection == Unsorted
  }

  /** The state after one handler runs. */
  function Step(s: ViewState, h: Handler): (r: ViewState)
    ensures SortsExclusive(s) ==> SortsExclusive(r)
    ensures h.SortPrice? || h.SortTitle? ==> SortsExclusive(r)
    ensures h.CategoryChange? || h.PriceRangeChange? || h.SortPrice? || h.SortTitle? ==> r.currentPage == 1
    ensures h.CategoryChange? || h.PriceRangeChange? || h.PageChange? || h.ItemsPerPageChange? ==>
      r.priceDirection == s.priceDirection && r.titleDirection == s.titleDirection
    ensures !h.CategoryChange? ==> r.category == s.category
    ensures !h.PriceRangeChange? ==> r.priceRange == s.priceRange
    ensures !h.ItemsPerPageChange? ==> r.itemsPerPage == s.itemsPerPage
    ensures h.ItemsPerPageChange? ==> r.currentPage == s.currentPage
    ensures h.SortPrice? ==> r.priceDirection == Toggled(s.priceDirection) && r.titleDirection == Unsorted
    ensures h.SortTitle? ==> r.titleDirection == Toggled(s.titleDirection) && r.priceDirection == Unsorted
    ensures h.CategoryChange? ==> r.category == h.category
    ensures h.PriceRangeChange? ==> r.priceRange == h.priceRange
    ensures h.PageChange? ==> r.currentPage == h.pageNumber
    ensures h.ItemsPerPageChange? ==> r.itemsPerPage == h.itemsPerPage
  {
    match h
    case CategoryChange(c) => s.(category := c, currentPage := 1)
    case PriceRangeChange(p) => s.(priceRange := p, currentPage := 1)
    case SortPrice =>
      s.(priceDirection := if s.priceDirection == Asc then Desc else Asc,
         titleDirection := Unsorted, currentPage := 1)
    case SortTitle =>
      s.(titleDirection := if s.titleDirection == Asc then Desc else Asc,
         priceDirection := Unsorted, currentPage := 1)
    case PageChange(p) => s.(currentPage := p)
    case ItemsPerPageChange(k) => s.(itemsPerPage := k)
  }

  // ----- the page window -----

  /** Array.prototype.slice's reading of an index: negative counts from the
      end, and the result is clamped to [0, len]. */
  function SliceIndex(i: int, len: nat): (r: nat)
    ensures r <= len
    ensures 0 <= i <= len ==> r == i
    ensures i > len ==> r == len
  {
    if i < 0 then (if len + i < 0 then 0 else len + i)
    else if i > len then len
    else i
  }

  /** xs.slice(start, end). */
  function JsSlice<T>(xs: seq<T>, start: int, end: int): (r: seq<T>)
    ensures |r| <= |xs|
    ensures 0 <= start <= end ==> r == xs[Min(start, |xs|)..Min(end, |xs|)]
    ensures 0 <= end <= start ==> r == []
    ensures start < 0 && end < 0 && start < end && |xs| + end >= 0 ==>
      r == xs[Max(|xs| + start, 0)..|xs| + end]
  {
    var lo, hi := SliceIndex(start, |xs|), SliceIndex(end, |xs|);
    if lo < hi then xs[lo..hi] else []
  }

  /** The rows shown on `page` when `itemsPerPage` rows fit on a page. For
      a positive page and page size k the page is the window
      rows[s .. min(s + k, |rows|)] with s = (page - 1) * k, and a page that
      starts at or past the end is empty. */
  function PageSlice<T>(rows: seq<T>, page: int, itemsPerPage: int): (r: seq<T>)
    ensures page >= 1 && itemsPerPage >= 1 ==>
      var s := (page - 1) * itemsPerPage;
      && 0 <= s
      && (s < |rows| ==> r == rows[s..Min(s + itemsPerPage, |rows|)])
      && (s >= |rows| ==> r == [])
      && |r| == Max(0, Min(itemsPerPage, |rows| - s))
  {
    var startIndex := (page - 1) * itemsPerPage;
    var endIndex := startIndex + itemsPerPage;
    if page >= 1 && itemsPerPage >= 1 then
      PageStartNonNegative(page, itemsPerPage);
      SliceWindow(rows, startIndex, itemsPerPage);
      JsSlice(rows, startIndex, endIndex)
    else
      JsSlice(rows, startIndex, endIndex)
  }

  lemma PageStartNonNegative(page: int, itemsPerPage: int)
    requires page >= 1 && itemsPerPage >= 1
    ensures (page - 1) * itemsPerPage >= 0
  {
    Footer.MulMonotone(0, page - 1, itemsPerPage);
  }

  /** The window of k rows from a start s >= 0: empty when it starts at or
      past the end, and otherwise clamped to the end. */
  lemma SliceWindow<T>(rows: seq<T>, s: int, k: int)
    requires s >= 0 && k >= 1
    ensures s < |rows| ==> JsSlice(rows, s, s + k) == rows[s..Min(s + k, |rows|)]
    ensures s >= |rows| ==> JsSlice(rows, s, s + k) == []
    ensures |JsSlice(rows, s, s + k)| == Max(0, Min(k, |rows| - s))
  {
  }

  /** A page the footer forwards always has at least one row on it. */
  lemma ForwardedPageHasRows<T>(rows: seq<T>, k: int, requested: int)
    requires k > 0
    requires Footer.ForwardedPage(|rows|, k, requested).Some?
    ensures |PageSlice(rows, requested, k)| > 0
  {
  }

  /** The concatenation of a list of pages, first page first. */
  function Flatten<T>(pages: seq<seq<T>>): seq<T>
  {
    if pages == [] then [] else Flatten(pages[..|pages| - 1]) + pages[|pages| - 1]
  }

  /** Pages 1 to m, in order. */
  function PagesUpTo<T>(rows: seq<T>, k: int, m: nat): (pages: seq<seq<T>>)
    ensures |pages| == m
    ensures forall i :: 0 <= i < m ==> pages[i] == PageSlice(rows, i + 1, k)
  {
    if m == 0 then [] else PagesUpTo(rows, k, m - 1) + [PageSlice(rows, m, k)]
  }

  lemma {:induction false} PagesUpToCover<T>(rows: seq<T>, k: int, m: nat)
    requires k > 0
    ensures m * k >= 0
    ensures Flatten(PagesUpTo(rows, k, m)) == rows[..Min(m * k, |rows|)]
  {
    Footer.MulMonotone(0, m, k);
    if m > 0 {
      PagesUpToCover(rows, k, m - 1);
      var prev := PagesUpTo(rows, k, m - 1);
      var pages := PagesUpTo(rows, k, m);
      assert pages[..m - 1] == prev;
      WindowExtend(rows, (m - 1) * k, m * k, Flatten(prev), PageSlice(rows, m, k));
    }
  }

  /** Appending the window [s, e) to the rows before s gives the rows before e. */
  lemma WindowExtend<T>(rows: seq<T>, s: int, e: int, before: seq<T>, window: seq<T>)
    requires 0 <= s <= e
    requires before == rows[..Min(s, |rows|)]
    requires s < |rows| ==> window == rows[s..Min(e, |rows|)]
    requires s >= |rows| ==> window == []
    ensures before + window == rows[..Min(e, |rows|)]
  {
    if s < |rows| {
      assert rows[..s] + rows[s..Min(e, |rows|)] == rows[..Min(e, |rows|)];
    }
  }

  /** Every page from 1 to the footer's page count: together they hold
      every row exactly once, in order, and none of them is empty. */
  lemma AllPagesPartitionRows<T>(rows: seq<T>, k: int)
    requires k > 0
    ensures var pages := PagesUpTo(rows, k, Footer.TotalPages(|rows|, k));
      && Flatten(pages) == rows
      && forall i :: 0 <= i < |pages| ==> |pages[i]| > 0
  {
    var total := Footer.TotalPages(|rows|, k);
    var pages := PagesUpTo(rows, k, total);
    PagesUpToCover(rows, k, total);
    assert |rows| <= total * k;
    assert Min(total * k, |rows|) == |rows|;
    assert rows[..|rows|] == rows;
    forall i | 0 <= i < |pages|
      ensures |pages[i]| > 0
    {
      assert Footer.ForwardedPage(|rows|, k, i + 1).Some?;
      ForwardedPageHasRows(rows, k, i + 1);
    }
  }

  // ----- the component -----

  class CatalogueView {
    const rows: seq<Product>
    var selectedCategory: string
    var selectedPriceRange: string
    var priceSortDirection: SortDirection
    var titleSortDirection: SortDirection
    var currentPage: int
    var itemsPerPage: int

    ghost function State(): ViewState
      reads this
    {
      ViewState(selectedCategory, selectedPriceRange, priceSortDirection, titleSortDirection,
                currentPage, itemsPerPage)
    }

    constructor (rows: seq<Product>)
      ensures this.rows == rows
      ensures State() == Initial
    {
      this.rows := rows;
      selectedCategory := "";
      selectedPriceRange := "";
      priceSortDirection := Unsorted;
      titleSortDirection := Unsorted;
      currentPage := 1;
      itemsPerPage := 20;
    }

    method HandleCategoryChange(category: string)
      modifies this
      ensures selectedCategory == category && currentPage == 1
      ensures State() == Step(old(State()), CategoryChange(category))
    {
      selectedCategory := category;
      currentPage := 1;
    }

    method HandlePriceRangeChange(priceRange: string)
      modifies this
      ensures selectedPriceRange == priceRange && currentPage == 1
      ensures State() == Step(old(State()), PriceRangeChange(priceRange))
    {
      selectedPriceRange := priceRange;
      currentPage := 1;
    }

    method HandleSortPrice()
      modifies this
      ensures priceSortDirection == Toggled(old(priceSortDirection))
      ensures titleSortDirection == Unsorted && currentPage == 1
      ensures State() == Step(old(State()), SortPrice)
    {
      if priceSortDirection == Asc {
        priceSortDirection := Desc;
      } else {
        priceSortDirection := Asc;
      }
      titleSortDirection := Unsorted;
      currentPage := 1;
    }

    method HandleSortTitle()
      modifies this
      ensures titleSortDirection == Toggled(old(titleSortDirection))
      ensures priceSortDirection == Unsorted && currentPage == 1
      ensures State() == Step(old(State()), SortTitle)
    {
      if titleSortDirection == Asc {
        titleSortDirection := Desc;
      } else {
        titleSortDirection := Asc;
      }
      priceSortDirection := Unsorted;
      currentPage := 1;
    }

    method HandlePageChange(pageNumber: int)
      modifies this
      ensures currentPage == pageNumber
      ensures State() == Step(old(State()), PageChange(pageNumber))
    {
      currentPage := pageNumber;
    }

    /** The setter handed to the footer as its items-per-page callback. */
    method SetItemsPerPage(k: int)
      modifies this
      ensures itemsPerPage == k && currentPage == old(currentPage)
      ensures State() == Step(old(State()), ItemsPerPageChange(k))
    {
      itemsPerPage := k;
    }

    /** The rows handed to the body for the current page. */
    function PaginatedRows(): (page: seq<Product>)
      reads this
      ensures currentPage >= 1 && itemsPerPage >= 1 ==>
        var start := (currentPage - 1) * itemsPerPage;
        && |page| <= itemsPerPage
        && 0 <= start
        && (start < |rows| ==> |page| > 0 && start + |page| <= |rows|)
        && (start < |rows| ==> forall i :: 0 <= i < |page| ==> page[i] == rows[start + i])
        && (start >= |rows| ==> page == [])
        && (start + itemsPerPage <= |rows| ==> |page| == itemsPerPage)
        && (start < |rows| ==> page == rows[start..Min(start + itemsPerPage, |rows|)])
        && |page| == Max(0, Min(itemsPerPage, |rows| - start))
    {
      PageSlice(rows, currentPage, itemsPerPage)
    }
  }

  // ----- user interactions, wired through the header and the footer -----

  datatype UserEvent =
    | SelectCategory(category: string)
    | SelectPriceRange(priceRange: string)
    | ClickSortPrice
    | ClickSortTitle
    | ClickPrev
    | ClickNext
    | SelectItemsPerPage(option: string)

  /** The items-per-page select only ever reports one of its options. */
  predicate WellFormed(e: UserEvent)
  {
    e.SelectItemsPerPage? ==> e.option in Footer.ItemsPerPageOptions
  }

  predicate AllWellFormed(es: seq<UserEvent>)
  {
    forall i :: 0 <= i < |es| ==> WellFormed(es[i])
  }

  /** The footer's guarded page request, forwarded to HandlePageChange. */
  function FooterRequest(s: ViewState, totalItems: nat, requested: int): (r: ViewState)
    requires s.itemsPerPage > 0
    ensures r != s ==> 1 <= r.currentPage <= Footer.TotalPages(totalItems, s.itemsPerPage)
    ensures 1 <= requested <= Footer.TotalPages(totalItems, s.itemsPerPage) ==> r == s.(currentPage := requested)
    ensures !(1 <= requested <= Footer.TotalPages(totalItems, s.itemsPerPage)) ==> r == s
  {
    match Footer.ForwardedPage(totalItems, s.itemsPerPage, requested)
    case Some(p) => Step(s, PageChange(p))
    case None => s
  }

  /** The catalogue state after one user interaction, as the components are
      wired: a disabled button does nothing, and the footer reports the
      parsed items-per-page value to SetItemsPerPage. */
  function Dispatch(s: ViewState, totalItems: nat, e: UserEvent): (r: ViewState)
    requires s.itemsPerPage > 0 && WellFormed(e)
    ensures r.itemsPerPage > 0
    ensures SortsExclusive(s) ==> SortsExclusive(r)
    ensures e.SelectCategory? ==> r == s.(category := e.category, currentPage := 1)
    ensures e.SelectPriceRange? ==> r == s.(priceRange := e.priceRange, currentPage := 1)
    ensures e.ClickSortPrice? ==>
      r == s.(priceDirection := Toggled(s.priceDirection), titleDirection := Unsorted, currentPage := 1)
    ensures e.ClickSortTitle? ==>
      r == s.(titleDirection := Toggled(s.titleDirection), priceDirection := Unsorted, currentPage := 1)
    ensures e.ClickPrev? || e.ClickNext? ==> r == s.(currentPage := r.currentPage)
    ensures e.ClickPrev? && Navigable(s, totalItems) ==>
      r == (if s.currentPage > 1 then s.(currentPage := s.currentPage - 1) else s)
    ensures e.ClickNext? && Navigable(s, totalItems) ==>
      r == (if s.currentPage < Footer.TotalPages(totalItems, s.itemsPerPage)
            then s.(currentPage := s.currentPage + 1) else s)
    ensures e.SelectItemsPerPage? ==> r == s.(itemsPerPage := Footer.ItemsPerPageChoice(e.option).value)
  {
    match e
    case SelectCategory(c) => Step(s, CategoryChange(c))
    case SelectPriceRange(p) => Step(s, PriceRangeChange(p))
    case ClickSortPrice => Step(s, SortPrice)
    case ClickSortTitle => Step(s, SortTitle)
    case ClickPrev =>
      if Footer.PrevDisabled(s.currentPage) then s
      else FooterRequest(s, totalItems, Footer.PrevTarget(s.currentPage))
    case ClickNext =>
      if Footer.NextDisabled(totalItems, s.itemsPerPage, s.currentPage) then s
      else FooterRequest(s, totalItems, Footer.NextTarget(s.currentPage))
    case SelectItemsPerPage(o) => Step(s, ItemsPerPageChange(Footer.ItemsPerPageChoice(o).value))
  }

  function DispatchRun(s: ViewState, totalItems: nat, es: seq<UserEvent>): (r: ViewState)
    requires s.itemsPerPage > 0 && AllWellFormed(es)
    ensures r.itemsPerPage > 0
    decreases |es|
  {
    if es == [] then s else DispatchRun(Dispatch(s, totalItems, es[0]), totalItems, es[1..])
  }

  /** Whatever the user does, the two sort directions are never both set. */
  lemma {:induction false} SortsExclusiveAlways(s: ViewState, totalItems: nat, es: seq<UserEvent>)
    requires s == Initial && AllWellFormed(es)
    ensures SortsExclusive(DispatchRun(s, totalItems, es))
  {
    SortsExclusiveKept(s, totalItems, es);
  }

  lemma {:induction false} SortsExclusiveKept(s: ViewState, totalItems: nat, es: seq<UserEvent>)
    requires s.itemsPerPage > 0 && SortsExclusive(s) && AllWellFormed(es)
    ensures SortsExclusive(DispatchRun(s, totalItems, es))
    decreases |es|
  {
    if es != [] {
      SortsExclusiveKept(Dispatch(s, totalItems, es[0]), totalItems, es[1..]);
    }
  }

  // ----- pages the user can navigate -----

  /** The current page is the first page or a page that exists. */
  predicate Navigable(s: ViewState, totalItems: nat)
  {
    && s.itemsPerPage > 0
    && 1 <= s.currentPage
    && (s.currentPage == 1 || s.currentPage <= Footer.TotalPages(totalItems, s.itemsPerPage))
  }

  /** On a navigable page the rows shown are never empty unless there are
      no rows at all, and the Prev/Next buttons are disabled exactly when
      they could not move. */
  lemma NavigablePageShowsRows<T>(rows: seq<T>, s: ViewState)
    requires Navigable(s, |rows|) && |rows| > 0
    ensures |PageSlice(rows, s.currentPage, s.itemsPerPage)| > 0
    ensures Footer.PrevDisabled(s.currentPage)
      <==> Footer.ForwardedPage(|rows|, s.itemsPerPage, Footer.PrevTarget(s.currentPage)).None?
    ensures Footer.NextDisabled(|rows|, s.itemsPerPage, s.currentPage)
      <==> Footer.ForwardedPage(|rows|, s.itemsPerPage, Footer.NextTarget(s.currentPage)).None?
  {
    ForwardedPageHasRows(rows, s.itemsPerPage, s.currentPage);
    Footer.ButtonsAgreeWithGuard(|rows|, s.itemsPerPage, s.currentPage);
  }

  /** Changing items per page as intended: like every other filter
      handler, it returns to page 1. */
  function ItemsPerPageReset(s: ViewState, k: int): (r: ViewState)
    ensures r.itemsPerPage == k && r.currentPage == 1
    ensures r.category == s.category && r.priceRange == s.priceRange
    ensures r.priceDirection == s.priceDirection && r.titleDirection == s.titleDirection
    ensures forall totalItems: nat :: k > 0 ==> Navigable(r, totalItems)
  {
    Step(s, ItemsPerPageChange(k)).(currentPage := 1)
  }

  /** Dispatch with the items-per-page selection resetting the page. */
  function DispatchCorrected(s: ViewState, totalItems: nat, e: UserEvent): (r: ViewState)
    requires s.itemsPerPage > 0 && WellFormed(e)
    ensures r.itemsPerPage > 0
    ensures SortsExclusive(s) ==> SortsExclusive(r)
    ensures e.SelectItemsPerPage? ==>
      r == s.(itemsPerPage := Footer.ItemsPerPageChoice(e.option).value, currentPage := 1)
    ensures !e.SelectItemsPerPage? ==> r == Dispatch(s, totalItems, e)
  {
    match e
    case SelectItemsPerPage(o) => ItemsPerPageReset(s, Footer.ItemsPerPageChoice(o).value)
    case _ => Dispatch(s, totalItems, e)
  }

  function DispatchRunCorrected(s: ViewState, totalItems: nat, es: seq<UserEvent>): (r: ViewState)
    requires s.itemsPerPage > 0 && AllWellFormed(es)
    ensures r.itemsPerPage > 0
    decreases |es|
  {
    if es == [] then s else DispatchRunCorrected(DispatchCorrected(s, totalItems, es[0]), totalItems, es[1..])
  }

  lemma DispatchCorrectedKeepsNavigable(s: ViewState, totalItems: nat, e: UserEvent)
    requires Navigable(s, totalItems) && WellFormed(e)
    ensures Navigable(DispatchCorrected(s, totalItems, e), totalItems)
  {
  }

  /** With the correction, every page the user can reach is navigable. */
  lemma {:induction false} NavigableAlways(s: ViewState, totalItems: nat, es: seq<UserEvent>)
    requires Navigable(s, totalItems) && AllWellFormed(es)
    ensures Navigable(DispatchRunCorrected(s, totalItems, es), totalItems)
    decreases |es|
  {
    if es != [] {
      DispatchCorrectedKeepsNavigable(s, totalItems, es[0]);
      NavigableAlways(DispatchCorrected(s, totalItems, es[0]), totalItems, es[1..]);
    }
  }

  /** Page 5 at 10 rows per page, reached from the first render over 50
      rows by choosing 10 per page and clicking Next four times. */
  lemma ReachPageFive()
    ensures DispatchRun(Initial, 50, [SelectItemsPerPage("10"), ClickNext, ClickNext, ClickNext, ClickNext])
      == Initial.(itemsPerPage := 10, currentPage := 5)
  {
  }

  /** As written, choosing a larger page size keeps the current page: with
      50 rows, 10 per page and page 5 reached with Next, choosing 100 per
      page leaves page 5 of 1. It shows no rows, both buttons are enabled,
      and neither of them moves. */
  lemma ItemsPerPageChangeStrandsPage<T>(rows: seq<T>)
    requires |rows| == 50
    ensures var s := DispatchRun(Initial, 50, [SelectItemsPerPage("10"), ClickNext, ClickNext, ClickNext, ClickNext]);
      && Navigable(s, 50)
      && |PageSlice(rows, s.currentPage, s.itemsPerPage)| == 10
      && var t := Dispatch(s, 50, SelectItemsPerPage("100"));
      && t.currentPage == 5 && t.itemsPerPage == 100
      && !Navigable(t, 50)
      && PageSlice(rows, t.currentPage, t.itemsPerPage) == []
      && !Footer.PrevDisabled(t.currentPage)
      && !Footer.NextDisabled(50, t.itemsPerPage, t.currentPage)
      && Dispatch(t, 50, ClickPrev) == t
      && Dispatch(t, 50, ClickNext) == t
  {
    ReachPageFive();
    var s := Initial.(itemsPerPage := 10, currentPage := 5);
    assert Footer.TotalPages(50, 10) == 5;
    Footer.OptionsParseToPageSizes();
    assert Footer.ItemsPerPageOptions[3] == "100";
    var t := Dispatch(s, 50, SelectItemsPerPage("100"));
    assert t == s.(itemsPerPage := 100);
    assert Footer.TotalPages(50, 100) == 1;
  }

  // ----- header and catalogue sort directions -----

  /** The catalogue handler each header callback is wired to. */
  function SortClick(c: Header.HeaderCallback): UserEvent
  {
    match c
    case OnSortPrice => ClickSortPrice
    case OnSortTitle => ClickSortTitle
  }

  function SortClicks(cs: seq<Header.HeaderCallback>): (es: seq<UserEvent>)
    ensures |es| == |cs| && AllWellFormed(es)
    ensures forall i :: 0 <= i < |cs| ==> es[i] == SortClick(cs[i])
  {
    if cs == [] then [] else [SortClick(cs[0])] + SortClicks(cs[1..])
  }

  /** As written, the header's indicator and the catalogue's direction part
      ways: after price, title, price the header shows price descending
      while the catalogue holds price ascending. */
  lemma HeaderIndicatorDisagrees(totalItems: nat)
    ensures var clicks := [Header.OnSortPrice, Header.OnSortTitle, Header.OnSortPrice];
      && Header.ClickRun(Header.InitialHeader, clicks).priceDirection == Desc
      && Header.PriceIndicator(Header.ClickRun(Header.InitialHeader, clicks).priceDirection) == "▼"
      && DispatchRun(Initial, totalItems, SortClicks(clicks)).priceDirection == Asc
  {
    var clicks := [Header.OnSortPrice, Header.OnSortTitle, Header.OnSortPrice];
    assert clicks[1..] == [Header.OnSortTitle, Header.OnSortPrice];
    assert clicks[1..][1..] == [Header.OnSortPrice];
    var es := SortClicks(clicks);
    assert es == [ClickSortPrice, ClickSortTitle, ClickSortPrice];
    assert es[1..] == [ClickSortTitle, ClickSortPrice];
    assert es[1..][1..] == [ClickSortPrice];
    var s1 := Dispatch(Initial, totalItems, ClickSortPrice);
    assert s1.priceDirection == Asc;
    var s2 := Dispatch(s1, totalItems, ClickSortTitle);
    assert s2.priceDirection == Unsorted;
    var s3 := Dispatch(s2, totalItems, ClickSortPrice);
    assert s3.priceDirection == Asc;
    assert DispatchRun(s2, totalItems, es[1..][1..]) == s3;
    assert DispatchRun(s1, totalItems, es[1..]) == s3;
  }

  /** With the corrected header click, the header's pair of directions is
      always the catalogue's own, so its indicators show the catalogue's
      sort state after any sequence of clicks. */
  lemma {:induction false} CorrectedHeaderTracksCatalogue(
    s: ViewState, h: Header.HeaderState, totalItems: nat, clicks: seq<Header.HeaderCallback>)
    requires s.itemsPerPage > 0
    requires h.priceDirection == s.priceDirection && h.titleDirection == s.titleDirection
    ensures var r := DispatchRun(s, totalItems, SortClicks(clicks));
      var g := Header.ClickRunClearingOther(h, clicks);
      g.priceDirection == r.priceDirection && g.titleDirection == r.titleDirection
    decreases |clicks|
  {
    if clicks != [] {
      var es := SortClicks(clicks);
      assert es[1..] == SortClicks(clicks[1..]);
      CorrectedHeaderTracksCatalogue(
        Dispatch(s, totalItems, es[0]), Header.ClickedClearingOther(h, clicks[0]), totalItems, clicks[1..]);
    }
  }
}
