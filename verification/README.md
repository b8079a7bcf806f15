# Product catalogue view: a Dafny model

This project models the catalogue table of a small React product-catalogue
viewer. The catalogue component keeps six pieces of view state: the selected
category, the selected price range, a price sort direction, a title sort
direction, the current page and the number of items per page. Its handlers
update that state. The footer turns the row count into a page count and
guards page requests. The header draws one cell per column, with sort
buttons whose indicators come from the header's own pair of directions. Each
row shortens long descriptions and toggles a details modal.

Modules, one per component:

- `Types` (types.dfy): the product record, the column descriptor and `Option`.
- `Direction` (direction.dfy): the sort direction `''`/`asc`/`desc` and the
  click toggle that both the catalogue and its header use.
- `Footer` (footer.dfy): page count, page-request guard, Prev/Next targets
  and disabled flags, and base-10 parsing of the items-per-page selection.
- `Header` (header.dfy): the header's local sort state (class
  `CatalogueHeader` and the pure `Clicked`), indicator labels and header cells.
- `Row` (row.dfy): description shortening, the image link target and the
  modal toggle (class `ProductRow`).
- `Catalogue` (catalogue.dfy): the view state (class `CatalogueView`, with the
  pure `Step` it is specified by), the page window taken with
  `Array.prototype.slice` semantics, and `Dispatch`. `Dispatch` is the effect of
  one user interaction with the components wired as they are.

Every method of a class states its new state in full, as
`State() == Step(old(State()), …)` for the catalogue and
`State() == Clicked(old(State()), …)` for the header. The lemmas about `Step`,
`Dispatch` and `Clicked` then carry over to the classes.

The stored category, price range and sort directions are never applied to
the rows. The page is cut from the rows as they were given, and the footer
counts all rows. The catalogue hands its body the category and price-range
options, the selections and both sort directions
(product-catalogue/src/components/ProductCatalogue.tsx:68-78). The body
only shows the selections in its select boxes and ignores the sort
directions; the page is cut before any of them could act, and no basket
callback is passed.
No filter, row sort or basket is applied in these components, so the model
has none.

## Model

| member | source | states |
|---|---|---|
| `Direction.Toggled` | product-catalogue/src/components/ProductCatalogue.tsx:33-37 | a click always yields a real direction; it yields `desc` exactly when the direction was `asc`, and `asc` otherwise |
| `Catalogue.Step` | product-catalogue/src/components/ProductCatalogue.tsx:22-54 | the category and price-range handlers store their argument, the page handler stores the page it is given and the items-per-page setter stores the size it is given; each sort handler toggles its own direction and clears the other, so the two are never both set; category, price-range and both sort handlers return to page 1; every handler leaves the fields it does not own unchanged; the items-per-page setter leaves the current page alone |
| `Catalogue.CatalogueView.constructor` | product-catalogue/src/components/ProductCatalogue.tsx:15-20 | the initial state is empty category and price range, no sort, page 1, 20 items per page |
| `Catalogue.CatalogueView.HandleCategoryChange` | product-catalogue/src/components/ProductCatalogue.tsx:22-25 | sets the category and page 1; nothing else changes |
| `Catalogue.CatalogueView.HandlePriceRangeChange` | product-catalogue/src/components/ProductCatalogue.tsx:27-30 | sets the price range and page 1; nothing else changes |
| `Catalogue.CatalogueView.HandleSortPrice` | product-catalogue/src/components/ProductCatalogue.tsx:32-40 | toggles the price direction, clears the title direction, returns to page 1 |
| `Catalogue.CatalogueView.HandleSortTitle` | product-catalogue/src/components/ProductCatalogue.tsx:42-50 | toggles the title direction, clears the price direction, returns to page 1 |
| `Catalogue.CatalogueView.HandlePageChange` | product-catalogue/src/components/ProductCatalogue.tsx:52-54 | sets only the current page, to any value it is given |
| `Catalogue.CatalogueView.SetItemsPerPage` | product-catalogue/src/components/ProductCatalogue.tsx:84 | sets only the items per page; the current page is untouched |
| `Catalogue.SliceIndex` | product-catalogue/src/components/ProductCatalogue.tsx:58 | a slice index is clamped into `[0, len]`, unchanged when already inside it and `len` when above it |
| `Catalogue.JsSlice` | product-catalogue/src/components/ProductCatalogue.tsx:58 | a slice is never longer than the rows; for `0 <= start <= end` it is `xs[min(start,n) .. min(end,n)]`; for `0 <= end <= start` it is empty; for `start < end < 0` with `n + end >= 0` it is `xs[max(n+start,0) .. n+end]`, both indices counted back from the end (mixed-sign pairs, which no page window produces, are not stated) |
| `Catalogue.PageSlice` | product-catalogue/src/components/ProductCatalogue.tsx:56-58 | for page ≥ 1 and page size k ≥ 1, with n rows and `s = (page-1)*k`, the page is `rows[s .. min(s+k, n)]`, of length `max(0, min(k, n-s))`, and empty once `s` reaches n |
| `Catalogue.ForwardedPageHasRows` | product-catalogue/src/components/ProductCatalogueFooter.tsx:20-26 | any page the footer forwards has at least one row on it |
| `Catalogue.PagesUpToCover` | product-catalogue/src/components/ProductCatalogue.tsx:56-58 | pages 1..m concatenated are exactly the first `min(m*k, n)` of the n rows, in order |
| `Catalogue.AllPagesPartitionRows` | product-catalogue/src/components/ProductCatalogueFooter.tsx:20 | pages 1..totalPages together hold every row once, in order, and none of them is empty |
| `Catalogue.FooterRequest` | product-catalogue/src/components/ProductCatalogueFooter.tsx:22-26 | a footer request for a page in `[1, totalPages]` moves to exactly that page and changes nothing else; any other request leaves the state unchanged |
| `Catalogue.Dispatch` | product-catalogue/src/components/ProductCatalogue.tsx:63-85 | the category and price-range selects store their value and return to page 1; each sort click toggles its direction, clears the other and returns to page 1; Prev and Next change only the current page, and from a navigable page an enabled Prev moves back exactly one page and an enabled Next forward exactly one, a disabled one leaving the state alone; the page-size select stores the parsed option and keeps the page; every interaction keeps the page size positive and the sort directions exclusive |
| `Catalogue.SortsExclusiveKept` | product-catalogue/src/components/ProductCatalogue.tsx:32-50 | from any state where at most one direction is set, every sequence of interactions keeps it so |
| `Catalogue.SortsExclusiveAlways` | product-catalogue/src/components/ProductCatalogue.tsx:17-50 | from the initial state, price and title directions are never both set |
| `Catalogue.NavigablePageShowsRows` | product-catalogue/src/components/ProductCatalogueFooter.tsx:37-53 | when the current page is page 1 or an existing page and there are rows, the page shows rows, and Prev/Next are disabled exactly when the guard would drop their request |
| `Catalogue.ReachPageFive` | product-catalogue/src/components/ProductCatalogueFooter.tsx:47-53 | over 50 rows, choosing 10 per page and clicking Next four times reaches page 5 |
| `Catalogue.ItemsPerPageChangeStrandsPage` | product-catalogue/src/components/ProductCatalogue.tsx:84 | as written: from page 5 of 5 at 10 per page, choosing 100 per page leaves page 5 of 1; it shows no rows, and Prev and Next are both enabled but neither moves |
| `Catalogue.ItemsPerPageReset` | product-catalogue/src/components/ProductCatalogue.tsx:84 | corrected: changing the page size stores it and returns to page 1, keeping category, price range and both sort directions; the result is navigable for any row count |
| `Catalogue.DispatchCorrected` | product-catalogue/src/components/ProductCatalogue.tsx:79-85 | with the corrected wiring the page-size select stores the parsed option and returns to page 1, every other interaction behaves as in `Dispatch`, and the page size stays positive and the sort directions exclusive |
| `Catalogue.DispatchCorrectedKeepsNavigable` | product-catalogue/src/components/ProductCatalogue.tsx:79-85 | with the correction, every interaction keeps the current page navigable |
| `Catalogue.NavigableAlways` | product-catalogue/src/components/ProductCatalogue.tsx:79-85 | with the correction, every sequence of interactions keeps the current page navigable |
| `Catalogue.SortClicks` | product-catalogue/src/components/ProductCatalogue.tsx:63-67 | each header callback is delivered as the matching catalogue sort handler, in order |
| `Catalogue.HeaderIndicatorDisagrees` | product-catalogue/src/components/ProductCatalogueHeader.tsx:14-30 | as written: after price, title, price clicks the header shows `▼` (descending) while the catalogue holds price ascending |
| `Catalogue.CorrectedHeaderTracksCatalogue` | product-catalogue/src/components/ProductCatalogueHeader.tsx:14-30 | corrected: a header whose click clears the other direction holds the catalogue's directions after any sequence of clicks |
| `Footer.TotalPages` | product-catalogue/src/components/ProductCatalogueFooter.tsx:20 | the page count is the ceiling of totalItems / itemsPerPage: enough pages for all items, the last page non-empty, 0 exactly when there are no items |
| `Footer.ForwardedPage` | product-catalogue/src/components/ProductCatalogueFooter.tsx:22-26 | a page is forwarded, unchanged, iff `1 <= p <= totalPages`, equivalently iff page p holds at least one item |
| `Footer.ButtonsAgreeWithGuard` | product-catalogue/src/components/ProductCatalogueFooter.tsx:37-53 | on page 1 or an existing page, Prev (target page-1) is disabled iff page is 1 iff the guard drops it; Next (target page+1) is disabled iff the guard drops it |
| `Footer.PrevTarget` | product-catalogue/src/components/ProductCatalogueFooter.tsx:39 | Prev asks for the page just before the current one |
| `Footer.NextTarget` | product-catalogue/src/components/ProductCatalogueFooter.tsx:49 | Next asks for the page just after the current one |
| `Footer.PrevDisabled` | product-catalogue/src/components/ProductCatalogueFooter.tsx:39-40 | Prev is disabled only where its target would be below page 1; from any later page it asks for a page of at least 1 |
| `Footer.NextDisabled` | product-catalogue/src/components/ProductCatalogueFooter.tsx:49-50 | Next is disabled whenever there are no items, and from page 1 or later a disabled Next never holds back a page the guard would forward |
| `Footer.ParseInt10` | product-catalogue/src/components/ProductCatalogueFooter.tsx:29 | parsing fails (NaN) exactly when the string is empty or does not start with a digit; a string of digits parses to its decimal value |
| `Footer.ParseDecimalRoundTrip` | product-catalogue/src/components/ProductCatalogueFooter.tsx:29 | base-10 parsing reads every decimal numeral back as its number |
| `Footer.OptionsParseToPageSizes` | product-catalogue/src/components/ProductCatalogueFooter.tsx:58-61 | the options "10", "20", "50", "100" parse to 10, 20, 50, 100 |
| `Footer.ItemsPerPageChoice` | product-catalogue/src/components/ProductCatalogueFooter.tsx:28-31 | the value reported for a chosen option is the page size it is labelled with, always one of 10, 20, 50, 100 and positive |
| `Header.Clicked` | product-catalogue/src/components/ProductCatalogueHeader.tsx:14-30 | a click toggles its own column's direction (`asc` becomes `desc`, anything else `asc`) and leaves the other column's direction as it was |
| `Header.ClickedClearingOther` | product-catalogue/src/components/ProductCatalogueHeader.tsx:14-30 | corrected click: toggles its own direction and leaves at most one direction set |
| `Header.CatalogueHeader.constructor` | product-catalogue/src/components/ProductCatalogueHeader.tsx:11-12 | both local directions start unset |
| `Header.CatalogueHeader.HandleSortPrice` | product-catalogue/src/components/ProductCatalogueHeader.tsx:14-21 | toggles the local price direction, keeps the title direction, invokes the price callback exactly once |
| `Header.CatalogueHeader.HandleSortTitle` | product-catalogue/src/components/ProductCatalogueHeader.tsx:23-30 | toggles the local title direction, keeps the price direction, invokes the title callback exactly once |
| `Header.PriceIndicator` | product-catalogue/src/components/ProductCatalogueHeader.tsx:40 | the price button shows `▲` iff the direction is `asc`, `▼` otherwise |
| `Header.TitleIndicator` | product-catalogue/src/components/ProductCatalogueHeader.tsx:45 | the title button shows `A-Z` iff the direction is `asc`, `Z-A` otherwise |
| `Header.ColumnCells` | product-catalogue/src/components/ProductCatalogueHeader.tsx:34-50 | one cell per column, in order, with the column's label; exactly the price and title columns get a sort button, labelled from their direction |
| `Header.HeaderCells` | product-catalogue/src/components/ProductCatalogueHeader.tsx:33-54 | the header is the column cells followed by one "Add to basket" cell |
| `Header.CatalogueHeader.Cells` | product-catalogue/src/components/ProductCatalogueHeader.tsx:33-54 | the rendered header has one cell per column with its caption; exactly the price and title columns get a sort button, labelled from the local directions; then the "Add to basket" cell |
| `Row.ShownDescription` | product-catalogue/src/components/ProductCatalogueRow.tsx:17-36 | descriptions over 100 characters are shown as their first 100 followed by `...`, others unchanged; the result is at most 103 long and agrees with the description d on its first 100 characters, or on all of d when d is shorter |
| `Row.ConcatDescription` | product-catalogue/src/components/ProductCatalogueRow.tsx:17 | a description is marked for shortening exactly when its first 100 characters are not all of it |
| `Row.Join` | product-catalogue/src/components/ProductCatalogueRow.tsx:30 | no images give an empty target, one image gives that image, and every image fits within the target |
| `Row.JoinAppend` | product-catalogue/src/components/ProductCatalogueRow.tsx:30 | joining the image strings distributes over list concatenation |
| `Row.ImageInHref` | product-catalogue/src/components/ProductCatalogueRow.tsx:30 | the link target is the images before i, then image i, then the images after i |
| `Catalogue.CatalogueView.PaginatedRows` | product-catalogue/src/components/ProductCatalogue.tsx:56-58 | on page p ≥ 1 with k ≥ 1 per page and `s = (p-1)*k`, the rows shown are exactly `rows[s .. min(s+k, n)]`, in order, `max(0, min(k, n-s))` of them: a partial last page shows every remaining row, and a page past the end shows none |
| `Row.ProductRow.constructor` | product-catalogue/src/components/ProductCatalogueRow.tsx:13-15 | the modal starts hidden |
| `Row.ProductRow.HandleModalToggle` | product-catalogue/src/components/ProductCatalogueRow.tsx:24-26 | the modal flag is negated, so two toggles restore it |
| `Row.ProductRow.DescriptionCell` | product-catalogue/src/components/ProductCatalogueRow.tsx:36 | the description cell shows the first 100 characters and `...` when the description is marked for shortening, the description itself otherwise, and never more than 103 characters |
| `Row.ProductRow.ImageHref` | product-catalogue/src/components/ProductCatalogueRow.tsx:30 | the image link target is empty for a product without images, is the image itself for one image, and holds every image whole, after the images before it and before the images after it |

## Left out

- Filtering, row sorting and the basket: the catalogue stores a category, a price range and sort directions but applies none of them, and no basket callbacks are supplied. The model has nothing to compare or filter.
- The body, the modal, the route, the login form, the application shell and the API client: rendering, routing, browser storage, network calls and the token-refresh interceptor are I/O or presentation. Their only computation, option-label formatting in the body, is not modelled.
- The product type definition file is not part of this model. Its fields are taken from how the components use them.
- JavaScript number semantics: pages and page sizes are mathematical integers. NaN from `parseInt`, `Infinity` for a zero page size and fractional page numbers do not occur. Page size is kept positive because the footer only reports one of its four options.
- Footer.ParseInt10: models `parseInt(s, 10)` as the value of the leading decimal digits. Leading white space and a sign are not modelled. The select's option values have neither.
- Row.ShownDescription: string lengths are counted in characters, not UTF-16 code units. Being shown unchanged does not imply a length of at most 100, because a 103-character description ending in `...` is shown as itself. The contract states only that length at most 100 implies unchanged, and that unchanged implies length at most 103.
- React's scheduling: each handler is modelled as an atomic update computed from the state of the render it was created in. Batching cannot change this, because every handler sets each field at most once.
- The footer's "Page X of Y" and guest/user labels, and the row's CSS class names, are display only.

## Findings

| source | as written | input that shows it | evidently intended | confidence | as-written member | corrected member |
|---|---|---|---|---|---|---|
| product-catalogue/src/components/ProductCatalogue.tsx:84 | the footer's page-size choice goes straight to `setItemsPerPage`, which keeps the current page | 50 rows, 10 per page, Next four times to page 5, then choose 100 per page: page 5 of 1 shows no rows; Prev asks for page 4 and Next for page 6, both above the single page, so the guard drops both although neither button is disabled | changing the page size returns to page 1, as every other filter change does | medium, not executed | `Catalogue.ItemsPerPageChangeStrandsPage` | `Catalogue.ItemsPerPageReset` |
| product-catalogue/src/components/ProductCatalogueHeader.tsx:14-30 | the header toggles its own copy of the clicked direction and never clears the other, while the catalogue clears it | click price, title, price: the header shows price `▼` (descending) while the catalogue's price direction is ascending | the header's indicators follow the catalogue's directions: a click clears the other direction | medium, not executed | `Catalogue.HeaderIndicatorDisagrees` | `Header.ClickedClearingOther` |
