/**
 The index page's state: the selected tab, the small-screen menu flag, the
 current page and the product table's search text; the user actions that
 change it; and the rows the table shows for given fetched data.
 */
module IndexPage {
  import opened JsString
  import opened Catalog
  import opened Subsequences
  import opened ProductFilter
  import opened Paging

  const FirstPage: int := 1
  /** The pager's fixed upper bound, independent of how much data there is. */
  const LastPage: int := 3

  datatype Tab = Products | Carts

  datatype Screen = Screen(selectedTab: Tab, isBarOpen: bool, currentPage: int, search: string)

  /** State on first render: products tab, menu closed, page 1, empty search. */
  const Initial: Screen := Screen(Products, false, FirstPage, "")

  datatype Action =
    | PreviousPressed
    | NextPressed
    | TabClicked(tab: Tab)
    | MenuOpened
    | MenuClosed
    | SearchEdited(text: string)

  predicate PageInRange(page: int) {
    FirstPage <= page <= LastPage
  }

  /** The Previous button: stays on page 1, otherwise goes back one. */
  function PreviousPage(page: int): (r: int)
    ensures page - 1 <= r <= page
    ensures r == page <==> page == FirstPage
    ensures PageInRange(page) ==> PageInRange(r)
  {
    if page != FirstPage then page - 1 else page
  }

  /** The Next button: stays on the last page, otherwise goes forward one. */
  function NextPage(page: int): (r: int)
    ensures page <= r <= page + 1
    ensures r == page <==> page == LastPage
    ensures PageInRange(page) ==> PageInRange(r)
  {
    if page != LastPage then page + 1 else page
  }

  /** The two buttons keep the page within bounds and clamp exactly at the ends. */
  lemma PagerClamps(page: int)
    requires PageInRange(page)
    ensures PageInRange(PreviousPage(page)) && PageInRange(NextPage(page))
    ensures PreviousPage(page) == page <==> page == FirstPage
    ensures NextPage(page) == page <==> page == LastPage
    ensures page != FirstPage ==> PreviousPage(page) == page - 1
    ensures page != LastPage ==> NextPage(page) == page + 1
  {
  }

  /** Away from the bounds, each button undoes the other. */
  lemma PagerInverse(page: int)
    requires PageInRange(page)
    ensures page != LastPage ==> PreviousPage(NextPage(page)) == page
    ensures page != FirstPage ==> NextPage(PreviousPage(page)) == page
  {
  }

  /** One user action. Each handler sets its own piece of state and nothing else. */
  function Step(s: Screen, a: Action): (t: Screen)
    ensures PageInRange(s.currentPage) ==> PageInRange(t.currentPage)
    ensures a.PreviousPressed? ==> t.currentPage == PreviousPage(s.currentPage)
    ensures a.NextPressed? ==> t.currentPage == NextPage(s.currentPage)
    ensures !(a.PreviousPressed? || a.NextPressed?) ==> t.currentPage == s.currentPage
    ensures a.TabClicked? ==> t.selectedTab == a.tab
    ensures !a.TabClicked? ==> t.selectedTab == s.selectedTab
    ensures a.MenuOpened? ==> t.isBarOpen
    ensures a.MenuClosed? ==> !t.isBarOpen
    ensures !(a.MenuOpened? || a.MenuClosed?) ==> t.isBarOpen == s.isBarOpen
    ensures a.SearchEdited? ==> t.search == a.text
    ensures !a.SearchEdited? ==> t.search == s.search
  {
    match a
    case PreviousPressed => s.(currentPage := PreviousPage(s.currentPage))
    case NextPressed => s.(currentPage := NextPage(s.currentPage))
    case TabClicked(tab) => s.(selectedTab := tab)
    case MenuOpened => s.(isBarOpen := true)
    case MenuClosed => s.(isBarOpen := false)
    case SearchEdited(text) => s.(search := text)
  }

  /** A sequence of actions applied in order. */
  function Run(s: Screen, actions: seq<Action>): Screen
    decreases |actions|
  {
    if actions == [] then s else Run(Step(s, actions[0]), actions[1..])
  }

  /** Starting from any in-range page, no sequence of actions leaves the range. */
  lemma {:induction false} RunKeepsPageInRange(s: Screen, actions: seq<Action>)
    requires PageInRange(s.currentPage)
    ensures PageInRange(Run(s, actions).currentPage)
    decreases |actions|
  {
    if actions != [] {
      RunKeepsPageInRange(Step(s, actions[0]), actions[1..]);
    }
  }

  /** Every state reachable from the first render has its page in [1, 3]. */
  lemma ReachablePageInRange(actions: seq<Action>)
    ensures FirstPage <= Run(Initial, actions).currentPage <= LastPage
  {
    RunKeepsPageInRange(Initial, actions);
  }

  /** Tab clicks and menu toggles never touch the page or the search text. */
  lemma {:induction false} TabAndMenuKeepPageAndSearch(s: Screen, actions: seq<Action>)
    requires forall i :: 0 <= i < |actions| ==> actions[i].TabClicked? || actions[i].MenuOpened? || actions[i].MenuClosed?
    ensures Run(s, actions).currentPage == s.currentPage
    ensures Run(s, actions).search == s.search
    decreases |actions|
  {
    if actions != [] {
      TabAndMenuKeepPageAndSearch(Step(s, actions[0]), actions[1..]);
    }
  }

  /** Opening the menu, choosing Carts there and closing the menu leaves the
      Carts tab selected and the menu closed. */
  lemma MenuCartsScenario(s: Screen)
    ensures Run(s, [MenuOpened, TabClicked(Carts), MenuClosed]).selectedTab == Carts
    ensures !Run(s, [MenuOpened, TabClicked(Carts), MenuClosed]).isBarOpen
  {
  }

  /** The rows the product table renders: the current page is cut from the
      unfiltered data first, and only that window is filtered. */
  function DisplayedRows(data: seq<ProductItem>, s: Screen): (rows: seq<ProductItem>)
    ensures |rows| <= ItemsPerPage
    ensures IsSubsequence(rows, Window(data, s.currentPage))
    ensures forall x :: x in rows <==> x in Window(data, s.currentPage) && TitleMatches(x, s.search)
  {
    ProductsFilter(Window(data, s.currentPage), s.search)
  }

  /** Every displayed row is taken, in order, from the current page's index
      range of the fetched data. */
  lemma RowsComeFromCurrentPage(data: seq<ProductItem>, s: Screen)
    requires FirstPage <= s.currentPage
    ensures IsSubsequence(DisplayedRows(data, s), data)
    ensures forall x :: x in DisplayedRows(data, s) ==>
      exists i :: (s.currentPage - 1) * ItemsPerPage <= i < s.currentPage * ItemsPerPage && i < |data| && data[i] == x
  {
    var p := s.currentPage;
    var w := Window(data, p);
    var rows := DisplayedRows(data, s);
    SliceIsSubsequence(data, Min((p - 1) * ItemsPerPage, |data|), Min(p * ItemsPerPage, |data|));
    SubsequenceTransitive(rows, w, data);
    forall x | x in rows
      ensures exists i :: (p - 1) * ItemsPerPage <= i < p * ItemsPerPage && i < |data| && data[i] == x
    {
      var i := PositionInWindow(data, p, x);
    }
  }

  /** A position in `data`, within page `page`'s index range, for an element of that page's window. */
  lemma PositionInWindow<T>(data: seq<T>, page: int, x: T) returns (i: int)
    requires 1 <= page
    requires x in Window(data, page)
    ensures (page - 1) * ItemsPerPage <= i < page * ItemsPerPage && i < |data| && data[i] == x
  {
    var lo, hi := Min((page - 1) * ItemsPerPage, |data|), Min(page * ItemsPerPage, |data|);
    var w := Window(data, page);
    assert w == data[lo..hi];
    var j :| 0 <= j < |w| && w[j] == x;
    i := lo + j;
  }

  /** Items past the third page can never be shown: from any reachable state
      the rows come from the first 30 fetched items. */
  lemma {:induction false} RowsWithinFirstThreePages(data: seq<ProductItem>, actions: seq<Action>)
    ensures IsSubsequence(DisplayedRows(data, Run(Initial, actions)), data[..Min(LastPage * ItemsPerPage, |data|)])
  {
    var s := Run(Initial, actions);
    ReachablePageInRange(actions);
    var p := s.currentPage;
    var prefix := data[..Min(LastPage * ItemsPerPage, |data|)];
    var lo := Min((p - 1) * ItemsPerPage, |data|);
    var hi := Min(p * ItemsPerPage, |data|);
    assert p * ItemsPerPage <= LastPage * ItemsPerPage;
    assert Window(data, p) == data[lo..hi] == prefix[lo..hi];
    SliceIsSubsequence(prefix, lo, hi);
    SubsequenceTransitive(DisplayedRows(data, s), Window(data, p), prefix);
  }

  /** A product titled "Pear" with identifier `id`, for the example below. */
  function Pear(id: int): ProductItem {
    ProductItem(id, "Pear", "", 1.0, 0.0, 0.0, 1, "", "", "", [])
  }

  /** Searching narrows the current page only; it does not pull matches forward
      from later pages. With ten non-matching items ahead of the single match,
      page 1 shows no rows, although the match would head page 1 if the whole
      list were filtered before paging. All identifiers are distinct. */
  lemma FilterIsAppliedAfterPaging()
    ensures
      var apple := Pear(10).(title := "Apple");
      var data := seq(10, Pear) + [apple];
      var s := Initial.(search := "apple");
      && DisplayedRows(data, s) == []
      && Window(ProductsFilter(data, s.search), s.currentPage) == [apple]
  {
    var apple := Pear(10).(title := "Apple");
    var pears := seq(10, Pear);
    var data := pears + [apple];
    assert Lower("apple") == "apple";
    assert Lower("Apple") == "apple";
    assert !TitleMatches(Pear(0), "apple");
    forall i | 0 <= i < |pears|
      ensures !Keep(pears[i], "apple", NoFilters)
    {
      assert pears[i].title == Pear(0).title;
    }
    assert TitleMatches(apple, "apple");
    assert Window(data, 1) == pears by {
      assert data[0..10] == pears;
    }
    FilterNoneKept(pears, "apple", NoFilters);
    FilterAppend(pears, [apple], "apple", NoFilters);
    assert FilterItems([apple], "apple", NoFilters) == [apple] by {
      assert [apple][1..] == [];
    }
  }

  /** With an empty search both orders agree: the rows are simply the window. */
  lemma EmptySearchShowsWholeWindow(data: seq<ProductItem>, s: Screen)
    requires s.search == ""
    ensures DisplayedRows(data, s) == Window(data, s.currentPage)
    ensures DisplayedRows(data, s) == Window(ProductsFilter(data, s.search), s.currentPage)
  {
    EmptySearchKeepsAll(Window(data, s.currentPage));
    EmptySearchKeepsAll(data);
  }
}
