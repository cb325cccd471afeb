/**
 The fixed-size page window the index page cuts out of the fetched products,
 with JavaScript's `Array.prototype.slice` index clamping.
 */
module Paging {

  const ItemsPerPage: nat := 10

  function Min(a: int, b: int): int {
    if a <= b then a else b
  }

  /** How `slice` turns an argument into a position: a negative index counts
      from the end, and the result is clamped to `[0, len]`. */
  function RelativeIndex(k: int, len: nat): (r: nat)
    ensures r <= len
    ensures 0 <= k ==> r == Min(k, len)
    ensures k < 0 && 0 <= len + k ==> r == len + k
  {
    if k < 0 then (if len + k < 0 then 0 else len + k)
    else if k < len then k
    else len
  }

  /** `a.slice(start, end)`. */
  function Slice<T>(a: seq<T>, start: int, end: int): (r: seq<T>)
    ensures |r| <= |a|
    ensures 0 <= start <= end ==> r == a[Min(start, |a|)..Min(end, |a|)]
    ensures end <= start && (0 <= end || start < 0) ==> r == []
  {
    var lo := RelativeIndex(start, |a|);
    var hi := RelativeIndex(end, |a|);
    if lo < hi then a[lo..hi] else []
  }

  /** `data.slice(startIndex, endIndex)` for the page number `page`. */
  function Window<T>(data: seq<T>, page: int): (r: seq<T>)
    ensures |r| <= ItemsPerPage
    ensures 1 <= page ==> r == data[Min((page - 1) * ItemsPerPage, |data|)..Min(page * ItemsPerPage, |data|)]
    ensures 1 <= page && |data| <= (page - 1) * ItemsPerPage ==> r == []
    ensures 1 <= page && page * ItemsPerPage <= |data| ==> |r| == ItemsPerPage
  {
    var startIndex := (page - 1) * ItemsPerPage;
    var endIndex := startIndex + ItemsPerPage;
    Slice(data, startIndex, endIndex)
  }

  /** The windows of pages 1 through `n`, laid end to end. */
  function PagesUpTo<T>(data: seq<T>, n: nat): seq<T> {
    if n == 0 then [] else PagesUpTo(data, n - 1) + Window(data, n)
  }

  /** Consecutive windows tile the data: pages 1..n together are exactly its
      first `n * ItemsPerPage` elements, with no gap and no overlap. */
  lemma {:induction false} WindowsTile<T>(data: seq<T>, n: nat)
    ensures PagesUpTo(data, n) == data[..Min(n * ItemsPerPage, |data|)]
  {
    if n > 0 {
      WindowsTile(data, n - 1);
      var a := Min((n - 1) * ItemsPerPage, |data|);
      var b := Min(n * ItemsPerPage, |data|);
      assert data[..a] + data[a..b] == data[..b];
    }
  }
}
