/**
 Pagination of the table: ten rows per page, pages numbered from 1, the page
 count `Math.ceil(n / 10)`, JavaScript's `Array.prototype.slice` used to cut a
 page out of a list, and the previous/next page arithmetic.
 */
module Paging {

  const RowsPerPage: nat := 10

  function Min(a: int, b: int): int
  {
    if a <= b then a else b
  }

  /** `Math.ceil(n / RowsPerPage)`: the fewest pages that hold `n` rows. */
  function PageCount(n: nat): (c: nat)
    ensures c * RowsPerPage >= n
    ensures c > 0 ==> (c - 1) * RowsPerPage < n
    ensures c == 0 <==> n == 0
  {
    (n + RowsPerPage - 1) / RowsPerPage
  }

  /** How `slice` reads one of its bounds: a negative bound counts back from the end;
      the result is clamped to `[0, len]`. */
  function SliceBound(k: int, len: nat): (r: nat)
    ensures r <= len
    ensures 0 <= k ==> r == Min(k, len)
    ensures k < 0 && -k <= len ==> r == len + k
    ensures k < 0 && len < -k ==> r == 0
  {
    if k < 0 then (if len + k < 0 then 0 else len + k)
    else if k < len then k else len
  }

  /** `s.slice(start, end)`. */
  function Slice<T>(s: seq<T>, start: int, end: int): (r: seq<T>)
    ensures var lo := SliceBound(start, |s|);
            var hi := SliceBound(end, |s|);
            if lo < hi then r == s[lo..hi] else r == []
    ensures start <= end ==> |r| <= end - start
  {
    var lo := SliceBound(start, |s|);
    var hi := SliceBound(end, |s|);
    if lo < hi then s[lo..hi] else []
  }

  /** `s.slice((page - 1) * 10, page * 10)`: the rows shown on page `page`.  For a page
      from 1 on this is the page's block of the list, cut short at the end; page 0
      shows nothing. */
  function PageSlice<T>(s: seq<T>, page: int): (r: seq<T>)
    ensures |r| <= RowsPerPage
    ensures forall k :: 0 <= k < |r| ==> r[k] in s
    ensures page >= 1 ==>
      r == s[Min((page - 1) * RowsPerPage, |s|)..Min(page * RowsPerPage, |s|)]
    ensures page == 0 ==> r == []
    ensures 1 <= page <= PageCount(|s|) ==> |r| > 0
  {
    Slice(s, (page - 1) * RowsPerPage, page * RowsPerPage)
  }

  /** `Math.max(page - 1, 1)`. */
  function PreviousPage(page: int): (r: int)
    ensures r >= 1
    ensures page > 1 ==> r == page - 1
    ensures page <= 1 ==> r == 1
  {
    if page - 1 >= 1 then page - 1 else 1
  }

  /** `Math.min(page + 1, Math.ceil(n / 10))` for a list of `n` rows. */
  function NextPage(page: int, n: nat): (r: int)
    ensures r <= PageCount(n)
    ensures r <= page + 1
    ensures page < PageCount(n) ==> r == page + 1
    ensures page >= PageCount(n) ==> r == PageCount(n)
  {
    if page + 1 < PageCount(n) then page + 1 else PageCount(n)
  }

  /** Previous undoes next, away from the last page. */
  lemma PreviousUndoesNext(page: int, n: nat)
    requires 1 <= page < PageCount(n)
    ensures PreviousPage(NextPage(page, n)) == page
  {
  }

  /** Next undoes previous, away from the first page. */
  lemma NextUndoesPrevious(page: int, n: nat)
    requires 1 < page <= PageCount(n)
    ensures NextPage(PreviousPage(page), n) == page
  {
  }

  /** Previous and next keep a page that is in range in range. */
  lemma StepsStayInRange(page: int, n: nat)
    requires 1 <= page <= PageCount(n)
    ensures 1 <= PreviousPage(page) <= PageCount(n)
    ensures 1 <= NextPage(page, n) <= PageCount(n)
  {
  }

  /** Pages 1 to `k` shown one after the other. */
  function Pages<T>(s: seq<T>, k: nat): seq<T>
  {
    if k == 0 then [] else Pages(s, k - 1) + PageSlice(s, k)
  }

  /** The first `k` pages are exactly the first `k * 10` rows. */
  lemma {:induction false} PagesArePrefix<T>(s: seq<T>, k: nat)
    ensures Pages(s, k) == s[..Min(k * RowsPerPage, |s|)]
  {
    if k > 0 {
      PagesArePrefix(s, k - 1);
      var a := Min((k - 1) * RowsPerPage, |s|);
      var b := Min(k * RowsPerPage, |s|);
      assert s[..a] + s[a..b] == s[..b];
    }
  }

  /** Paging loses and repeats nothing: pages 1 to the last page, in order, are the list. */
  lemma PagesCoverList<T>(s: seq<T>)
    ensures Pages(s, PageCount(|s|)) == s
  {
    PagesArePrefix(s, PageCount(|s|));
  }

  /** Twenty-five rows make three pages, the last holding five rows. */
  lemma TwentyFiveRows<T>(s: seq<T>)
    requires |s| == 25
    ensures PageCount(|s|) == 3
    ensures |PageSlice(s, PageCount(|s|))| == 5
  {
  }
}
