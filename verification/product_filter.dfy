/**
 The product table's `filteredItems`: keep, in their original order, the items
 whose lower-cased title includes the lower-cased search text and that satisfy
 every extra field-equality filter.
 */
module ProductFilter {
  import opened JsString
  import opened Catalog
  import opened Subsequences

  /** The title half of the predicate: case-insensitive substring match. */
  predicate TitleMatches(item: ProductItem, search: string): (b: bool)
    ensures b <==> Contains(Lower(item.title), Lower(search))
    ensures search == "" ==> b
  {
    IncludesEmpty(Lower(item.title));
    assert Lower("") == "";
    Includes(Lower(item.title), Lower(search))
  }

  /** The extra-filter half: `Object.entries(applied).every(...)` with strict equality. */
  predicate MeetsFilters(item: ProductItem, applied: AppliedFilters): (b: bool)
    ensures b <==> (map k | k in applied :: FieldOf(item, k)) == applied
    ensures applied == NoFilters ==> b
  {
    forall k :: k in applied ==> FieldOf(item, k) == applied[k]
  }

  /** The callback passed to `items.filter`. */
  predicate Keep(item: ProductItem, search: string, applied: AppliedFilters): (b: bool)
    ensures b ==> TitleMatches(item, search)
    ensures applied == NoFilters ==> (b <==> TitleMatches(item, search))
  {
    TitleMatches(item, search) && MeetsFilters(item, applied)
  }

  /** `r` holds every element `Keep` accepts exactly as often as `items` does,
      and nothing else. */
  ghost predicate SelectsExactly(r: seq<ProductItem>, items: seq<ProductItem>, search: string, applied: AppliedFilters) {
    forall x :: multiset(r)[x] == if Keep(x, search, applied) then multiset(items)[x] else 0
  }

  /** `items.filter(...)`. */
  function FilterItems(items: seq<ProductItem>, search: string, applied: AppliedFilters): (r: seq<ProductItem>)
    ensures |r| <= |items|
    ensures IsSubsequence(r, items)
    ensures forall x :: x in r <==> x in items && Keep(x, search, applied)
    decreases |items|
  {
    if items == [] then
      []
    else
      var rest := FilterItems(items[1..], search, applied);
      assert items == [items[0]] + items[1..];
      if Keep(items[0], search, applied) then
        assert ([items[0]] + rest)[1..] == rest;
        [items[0]] + rest
      else
        rest
  }

  /** The filter keeps every accepted element as often as it occurs in the
      input, and no rejected element at all. */
  lemma {:induction false} FilterCounts(items: seq<ProductItem>, search: string, applied: AppliedFilters)
    ensures SelectsExactly(FilterItems(items, search, applied), items, search, applied)
    decreases |items|
  {
    if items != [] {
      FilterCounts(items[1..], search, applied);
      assert items == [items[0]] + items[1..];
    }
  }

  /** Filtering distributes over concatenation: the two halves are filtered
      independently and their results kept in order. */
  lemma {:induction false} FilterAppend(a: seq<ProductItem>, b: seq<ProductItem>, search: string, applied: AppliedFilters)
    ensures FilterItems(a + b, search, applied) == FilterItems(a, search, applied) + FilterItems(b, search, applied)
    decreases |a|
  {
    if a != [] {
      var ab := a + b;
      assert ab[0] == a[0] && ab[1..] == a[1..] + b;
      FilterAppend(a[1..], b, search, applied);
      var fa, fb := FilterItems(a[1..], search, applied), FilterItems(b, search, applied);
      if Keep(a[0], search, applied) {
        calc {
          FilterItems(ab, search, applied);
          [a[0]] + FilterItems(ab[1..], search, applied);
          [a[0]] + (fa + fb);
          ([a[0]] + fa) + fb;
        }
      } else {
        calc {
          FilterItems(ab, search, applied);
          FilterItems(ab[1..], search, applied);
          fa + fb;
        }
      }
    } else {
      assert a + b == b;
    }
  }

  /** When no item is accepted, nothing is kept. */
  lemma {:induction false} FilterNoneKept(items: seq<ProductItem>, search: string, applied: AppliedFilters)
    requires forall i :: 0 <= i < |items| ==> !Keep(items[i], search, applied)
    ensures FilterItems(items, search, applied) == []
    decreases |items|
  {
    if items != [] {
      FilterNoneKept(items[1..], search, applied);
    }
  }

  /** Order preservation plus the element counts pin the result down: the
      filter is the only subsequence of the input that keeps exactly the
      accepted elements. */
  lemma {:induction false} FilterUnique(items: seq<ProductItem>, search: string, applied: AppliedFilters, r: seq<ProductItem>)
    requires IsSubsequence(r, items)
    requires SelectsExactly(r, items, search, applied)
    ensures r == FilterItems(items, search, applied)
    decreases |items|
  {
    if items == [] {
      SubsequenceLength(r, items);
    } else {
      var h, t := items[0], items[1..];
      assert items == [h] + t;
      assert multiset(items) == multiset{h} + multiset(t);
      if Keep(h, search, applied) {
        assert multiset(r)[h] == multiset(items)[h];
        assert |r| > 0;
        assert r == [r[0]] + r[1..];
        if IsSubsequence(r, t) {
          SubsequenceMultiset(r, t);
        }
        assert r[0] == h && IsSubsequence(r[1..], t);
        assert multiset(r) == multiset{h} + multiset(r[1..]);
        forall x
          ensures multiset(r[1..])[x] == if Keep(x, search, applied) then multiset(t)[x] else 0
        {
          assert multiset(r)[x] == (if Keep(x, search, applied) then multiset(items)[x] else 0);
        }
        FilterUnique(t, search, applied, r[1..]);
      } else {
        assert h !in multiset(r);
        assert IsSubsequence(r, t);
        forall x
          ensures multiset(r)[x] == if Keep(x, search, applied) then multiset(t)[x] else 0
        {
          assert multiset(r)[x] == (if Keep(x, search, applied) then multiset(items)[x] else 0);
        }
        FilterUnique(t, search, applied, r);
      }
    }
  }

  /** Filtering an already filtered list with the same query changes nothing. */
  lemma {:induction false} FilterIdempotent(items: seq<ProductItem>, search: string, applied: AppliedFilters)
    ensures FilterItems(FilterItems(items, search, applied), search, applied) == FilterItems(items, search, applied)
    decreases |items|
  {
    if items != [] {
      FilterIdempotent(items[1..], search, applied);
      var rest := FilterItems(items[1..], search, applied);
      if Keep(items[0], search, applied) {
        assert ([items[0]] + rest)[1..] == rest;
      }
    }
  }

  /** `filteredItems` as the table computes it: the extra filters are the
      empty object, so only the title decides. */
  function ProductsFilter(items: seq<ProductItem>, search: string): (r: seq<ProductItem>)
    ensures |r| <= |items|
    ensures IsSubsequence(r, items)
    ensures forall x :: x in r <==> x in items && TitleMatches(x, search)
  {
    FilterItems(items, search, NoFilters)
  }

  /** With no extra filters, keeping an item depends on its title and the query alone. */
  lemma NoFiltersTitleOnly(a: ProductItem, b: ProductItem, search: string)
    requires a.title == b.title
    ensures Keep(a, search, NoFilters) <==> Keep(b, search, NoFilters)
    ensures Keep(a, search, NoFilters) <==> Includes(Lower(a.title), Lower(search))
  {
  }

  /** The empty query keeps every item, unchanged and in order. */
  lemma {:induction false} EmptySearchKeepsAll(items: seq<ProductItem>)
    ensures ProductsFilter(items, "") == items
    decreases |items|
  {
    if items != [] {
      IncludesEmpty(Lower(items[0].title));
      assert Lower("") == "";
      EmptySearchKeepsAll(items[1..]);
      assert items == [items[0]] + items[1..];
    }
  }

  /** Lower-casing the query first makes no difference: the match is case-insensitive. */
  lemma {:induction false} SearchIgnoresQueryCase(items: seq<ProductItem>, search: string)
    ensures ProductsFilter(items, Lower(search)) == ProductsFilter(items, search)
    decreases |items|
  {
    if items != [] {
      LowerIdempotent(search);
      SearchIgnoresQueryCase(items[1..], search);
    }
  }
}
