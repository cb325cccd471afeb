# Next-CMS product page: search, paging and page state

This project models the list logic inside the product page of Next-CMS
(`pages/index.tsx`). The page fetches an array of products and shows it in a
table. Ten products are shown per page, and a Previous/Next pager is fixed to
pages 1 to 3. A search box narrows the table by product title. A sidebar (or,
on small screens, a menu) switches between the Products and Carts tabs.

The model has these modules:

- `JsString`: `toLowerCase` restricted to ASCII letters, and `includes`, the
  substring test.
- `Subsequences`: order-preserving selection and its basic facts.
- `Catalog`: the `ProductItem` record, its scalar fields by name, and the
  extra-filter map. That map is always the empty object in the page.
- `ProductFilter`: the table's `filteredItems`.
- `Paging`: `Array.prototype.slice` with its index clamping, and the 10-item
  page window.
- `IndexPage`: the page state holds the selected tab, the menu flag, the
  current page and the search text. It also has the user actions, as a step
  function, and the rows the table renders.

The rendered rows are the page window of the **unfiltered** data, filtered by
the search text. The code computes `displayedData` first and passes it as
`items` to the table, which then filters it. So the rows are
`filter(window(data, page), search)`, not `window(filter(data, search), page)`.
Searching therefore narrows the current page only: matches on other pages are
never pulled forward. `IndexPage.FilterIsAppliedAfterPaging` exhibits an input
on which the two orders differ.

The fetched data is an arbitrary input sequence. No network call is modelled.

## Model

| member | source | states |
|---|---|---|
| `JsString.Lower` | pages/index.tsx:55 | Lower-casing keeps the length and lowers each character in place. |
| `JsString.LowerIdempotent` | pages/index.tsx:55 | Lower-casing an already lower-cased string changes nothing. |
| `JsString.Includes` | pages/index.tsx:55 | `s.includes(q)` holds exactly when `q` occurs as a contiguous block at some position of `s`. |
| `ProductFilter.TitleMatches` | pages/index.tsx:55 | An item's title matches iff its lower-cased title contains the lower-cased query at some position. The empty query matches every title. |
| `ProductFilter.MeetsFilters` | pages/index.tsx:56-58 | An item meets the extra filters iff each filtered field of the item equals the filter's value. The empty filter map is met by every item. |
| `ProductFilter.Keep` | pages/index.tsx:54-59 | An accepted item always has a matching title. With the empty filter map, the title match alone decides. |
| `ProductFilter.FilterItems` | pages/index.tsx:53-60 | The filter result is an order-preserving subsequence of the items. An item is in it iff the item is in the input, its title matches, and it satisfies every extra filter. |
| `ProductFilter.FilterCounts` | pages/index.tsx:53-60 | Each accepted item appears in the result exactly as often as in the input. A rejected item never appears. |
| `ProductFilter.FilterAppend` | pages/index.tsx:53-60 | Filtering a concatenation equals concatenating the filtered parts. Each item's fate depends on that item alone, and the order is kept. |
| `ProductFilter.FilterNoneKept` | pages/index.tsx:53-60 | If no item is accepted, the result is empty. |
| `ProductFilter.FilterUnique` | pages/index.tsx:53-60 | Any subsequence of the input that keeps exactly the accepted items, with their multiplicities, equals the filter result. So the filter is the one order-preserving selection of the matching items. |
| `ProductFilter.FilterIdempotent` | pages/index.tsx:53-55 | Filtering a filtered list again with the same query and filters gives the same list. |
| `ProductFilter.ProductsFilter` | pages/index.tsx:53-60 | With the table's empty extra-filter object (line 36), an item is in the result iff it is in the input and its lower-cased title includes the lower-cased query. The result keeps input order. |
| `ProductFilter.NoFiltersTitleOnly` | pages/index.tsx:56-58 | The empty extra-filter map makes the `every` conjunct vacuous. Two items with equal titles are kept or dropped together. |
| `ProductFilter.EmptySearchKeepsAll` | pages/index.tsx:53-55 | The empty search keeps every item, unchanged and in order. |
| `ProductFilter.SearchIgnoresQueryCase` | pages/index.tsx:55 | Searching for the lower-cased query gives the same rows as the query itself. |
| `Paging.Slice` | pages/index.tsx:117 | For `0 <= start <= end`, `slice` returns the elements from `min(start, len)` to `min(end, len)`. An empty or inverted range gives nothing. |
| `Paging.Window` | pages/index.tsx:112-117 | The window for page `p >= 1` is `data[min((p-1)*10, len) .. min(p*10, len))`. It has at most 10 items for every page number. It is empty once `(p-1)*10 >= len`, and has exactly 10 items when `p*10 <= len`. |
| `Paging.WindowsTile` | pages/index.tsx:112-117 | The windows of pages 1..n, laid end to end, are exactly the first `10n` items. There is no gap and no overlap. |
| `IndexPage.PreviousPage` | pages/index.tsx:264 | Previous moves back by one page, or stays put exactly on page 1. It never leaves [1, 3] once there. |
| `IndexPage.NextPage` | pages/index.tsx:273 | Next moves forward by one page, or stays put exactly on page 3. It never leaves [1, 3] once there. |
| `IndexPage.PagerClamps` | pages/index.tsx:260-278 | From an in-range page, Previous and Next stay in [1, 3]. Previous leaves the page unchanged iff it is 1, and otherwise decrements. Next leaves it unchanged iff it is 3, and otherwise increments. |
| `IndexPage.PagerInverse` | pages/index.tsx:260-278 | Within [1, 3], Previous undoes Next except on page 3, and Next undoes Previous except on page 1. |
| `IndexPage.Step` | pages/index.tsx:38-273 | Each action sets its own field only. A tab click sets the tab. Opening or closing the menu sets the flag. Editing the search sets the text. Previous sets the page to exactly `PreviousPage` of the old page, and Next to exactly `NextPage`. Only the pager buttons move the page, and they keep it in range. |
| `IndexPage.RunKeepsPageInRange` | pages/index.tsx:260-278 | From an in-range page, every sequence of actions keeps the page in [1, 3]. |
| `IndexPage.ReachablePageInRange` | pages/index.tsx:114 | From the initial page 1, every reachable state has its page in [1, 3]. |
| `IndexPage.TabAndMenuKeepPageAndSearch` | pages/index.tsx:126-251 | Any run of tab clicks and menu toggles leaves the current page and the search text unchanged. |
| `IndexPage.MenuCartsScenario` | pages/index.tsx:126-169 | Opening the menu, choosing Carts in it and closing it leaves Carts selected and the menu closed. |
| `IndexPage.DisplayedRows` | pages/index.tsx:259 | The rendered rows number at most 10. They are an order-preserving subsequence of the current window. A row appears iff it is in the window and its title matches the search. |
| `IndexPage.RowsComeFromCurrentPage` | pages/index.tsx:112-117 | For a page >= 1, the rows are a subsequence of the fetched data. Each row sits at an index in `[(p-1)*10, p*10)`. |
| `IndexPage.RowsWithinFirstThreePages` | pages/index.tsx:269-273 | In every reachable state, the rows come from the first 30 fetched items. Items past the third page can never be shown. |
| `IndexPage.FilterIsAppliedAfterPaging` | pages/index.tsx:257-259 | Take ten non-matching items followed by one match. With query "apple", page 1 shows no rows, whereas filtering before paging would show the match on page 1. |
| `IndexPage.EmptySearchShowsWholeWindow` | pages/index.tsx:257-259 | With an empty search, the rows are the whole current window. Filtering before or after paging then gives the same rows. |

## Left out

- The product fetch (`callAPI` and its effect, pages/index.tsx:182-194) is
  remote I/O whose errors are only logged. The fetched array is a parameter of
  `IndexPage.DisplayedRows` instead.
- The model assumes that the response's `products` field is an array of items
  with string titles. `fetch` does not reject a non-2xx status, and the
  stored `data.products` is not checked (pages/index.tsx:185-186). A body
  without `products` sets `data` to `undefined`, and `data.slice` then throws at
  pages/index.tsx:117. An item whose `title` is not a string throws at
  pages/index.tsx:55. In both cases the page fails to render. The typed
  `seq<ProductItem>` input cannot represent either case.
- URL synchronisation of the search text is left out. This covers `saveSearch`,
  pages/index.tsx:43-51, and the mount-time read of the `search` parameter,
  pages/index.tsx:62-70. Both depend on `window.location`, `history.pushState`
  and the external `query-string` library. The initial search text is therefore
  the empty string.
- That code has a defect, which the model does not cover. `handleSearch` calls
  `saveSearch` right after `setSearch`, and `saveSearch` reads the `search`
  value of the current render. So the URL receives the text from before the
  keystroke.
- `JsString.Lower` lower-cases ASCII letters only. The full Unicode
  `toLowerCase` (multi-character mappings, locale-independent folding of other
  scripts) is not modelled.
- `ProductFilter.MeetsFilters` covers the scalar fields only. Strict equality on
  the `images` array is reference identity, which a value model cannot see.
  JavaScript's `NaN` and signed zero are not modelled for numeric fields. The
  map is always empty in the page anyway.
- The `filters` state with its default `AppliedFilters` record
  (pages/index.tsx:118-124) is passed to the table but never read there.
- JSX rendering is not modelled: class names, icons, table markup and the
  static Carts mock block (pages/index.tsx:196-213).
- The product identifier is not checked for uniqueness. The page never relies
  on it beyond React row keys.
- `IndexPage.PagerInverse` is stated only for pages in [1, 3]. Outside that
  range, which no state reachable from page 1 enters, the `!==` tests make the
  buttons compose differently.
- `IndexPage.Step` accepts every action in every state. The page offers some
  actions only in some states. The search input is hidden on the Carts tab
  (pages/index.tsx:76). The menu's tab links and close icon are shown only
  while the menu is open (pages/index.tsx:136-137). The open icon is shown
  only below the `md` breakpoint (pages/index.tsx:218). Allowing more actions
  than the page offers keeps the safety lemmas sound:
  `IndexPage.RunKeepsPageInRange` and `IndexPage.RowsWithinFirstThreePages`
  hold for every run, so they hold for the runs the page can actually produce.
