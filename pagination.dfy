/** The page window over the sorted rows, the page count, and the Prev and Next
    buttons. */
module Pagination {

  /** `rowsPerPage` */
  const RowsPerPage: nat := 10

  // ---------------------------------------------------------------------------
  // Array.prototype.slice

  /** Where `slice` starts or stops for an index argument: a negative index
      counts back from the end, and every index is clamped into [0, len]. */
  function SliceIndex(i: int, len: nat): (r: nat)
    ensures r <= len
    ensures i + len <= 0 ==> r == 0
    ensures len <= i ==> r == len
  {
    if i < 0 then (if len + i < 0 then 0 else len + i)
    else if i > len then len
    else i
  }

  /** `s.slice(begin, end)`: a run of consecutive elements of s, no longer than
      end - begin when both are indices from the front. */
  function Slice<T>(s: seq<T>, begin: int, end: int): (r: seq<T>)
    ensures |r| <= |s|
    ensures 0 <= begin <= end ==> |r| <= end - begin
    ensures forall x :: x in r ==> x in s
  {
    var b, e := SliceIndex(begin, |s|), SliceIndex(end, |s|);
    if b < e then s[b..e] else []
  }

  /** Slicing from 0 to the length gives back the whole sequence. */
  lemma SliceWhole<T>(s: seq<T>)
    ensures Slice(s, 0, |s|) == s
    ensures Slice(s, -|s|, |s|) == s
  {
  }

  /** Two adjacent slices put end to end are the slice across both. */
  lemma SliceJoin<T>(s: seq<T>, a: int, b: int, c: int)
    requires 0 <= a <= b <= c
    ensures Slice(s, a, b) + Slice(s, b, c) == Slice(s, a, c)
  {
    var n := |s|;
    if a < n && b < n && c < n {
      assert s[a..c] == s[a..b] + s[b..c];
    } else if a < n && b < n {
      assert s[a..n] == s[a..b] + s[b..n];
    } else if a < n {
      assert s[a..n] == s[a..n] + [];
    }
  }

  /** A negative index counts back from the end (-0 is the index 0). */
  lemma SliceFromEnd<T>(s: seq<T>, k: int)
    requires 0 < k <= |s|
    ensures Slice(s, -k, |s|) == s[|s| - k..]
  {
  }

  function Min(a: int, b: int): int
  {
    if a <= b then a else b
  }

  /** `(page - 1) * rowsPerPage`: the position of the page's first row, a
      whole number of pages in from the start. */
  function StartIndex(page: int): (r: int)
    ensures page >= 1 <==> r >= 0
    ensures r % RowsPerPage == 0
  {
    (page - 1) * RowsPerPage
  }

  /** `paginatedData`: `sortedData.slice(startIndex, startIndex + rowsPerPage)`,
      at most ten of the rows it is taken from. */
  function Window<T>(rows: seq<T>, page: int): (r: seq<T>)
    ensures |r| <= RowsPerPage
    ensures forall x :: x in r ==> x in rows
  {
    Slice(rows, StartIndex(page), StartIndex(page) + RowsPerPage)
  }

  /** `totalPages`: `Math.ceil(length / rowsPerPage)`, which is 0 for no rows. */
  function PageCount(n: nat): (r: nat)
    ensures r * RowsPerPage >= n
    ensures r > 0 ==> (r - 1) * RowsPerPage < n
    ensures r == 0 <==> n == 0
  {
    (n + RowsPerPage - 1) / RowsPerPage
  }

  /** For a page of 1 or more the window holds the rows from position
      (page - 1) * 10 up to ten further, cut off at the end; it has at most ten
      rows and is empty exactly when the page lies past the last page. */
  lemma WindowOfPage<T>(rows: seq<T>, page: int)
    requires page >= 1
    ensures var n := |rows|;
            Window(rows, page)
            == rows[Min(StartIndex(page), n)..Min(StartIndex(page) + RowsPerPage, n)]
    ensures |Window(rows, page)| <= RowsPerPage
    ensures Window(rows, page) == [] <==> page > PageCount(|rows|)
  {
  }

  /** The pages from `first` on, `count` of them, put end to end. */
  function Pages<T>(rows: seq<T>, first: int, count: nat): seq<T>
    decreases count
  {
    if count == 0 then [] else Window(rows, first) + Pages(rows, first + 1, count - 1)
  }

  lemma {:induction false} PagesRun<T>(rows: seq<T>, first: int, count: nat)
    requires first >= 1 && StartIndex(first) <= |rows|
    ensures Pages(rows, first, count)
         == rows[StartIndex(first)..Min(StartIndex(first + count), |rows|)]
    decreases count
  {
    if count > 0 {
      WindowOfPage(rows, first);
      var n := |rows|;
      var a, b := StartIndex(first), StartIndex(first + 1);
      var c := Min(StartIndex(first + count), n);
      assert a <= c;
      if b <= n {
        assert Window(rows, first) == rows[a..b];
        PagesRun(rows, first + 1, count - 1);
        assert Pages(rows, first + 1, count - 1) == rows[b..c];
        assert b <= c;
        SplitSlice(rows, a, b, c);
      } else {
        assert Window(rows, first) == rows[a..n] && c == n;
        PagesPastEnd(rows, first + 1, count - 1);
      }
    }
  }

  lemma SplitSlice<T>(s: seq<T>, a: int, b: int, c: int)
    requires 0 <= a <= b <= c <= |s|
    ensures s[a..c] == s[a..b] + s[b..c]
  {
  }

  lemma {:induction false} PagesPastEnd<T>(rows: seq<T>, first: int, count: nat)
    requires first >= 1 && StartIndex(first) > |rows|
    ensures Pages(rows, first, count) == []
    decreases count
  {
    if count > 0 {
      WindowOfPage(rows, first);
      PagesPastEnd(rows, first + 1, count - 1);
    }
  }

  /** Pages 1 to totalPages, read one after the other, give back every row
      exactly once and in order. */
  lemma PagesCoverRows<T>(rows: seq<T>)
    ensures Pages(rows, 1, PageCount(|rows|)) == rows
  {
    PagesRun(rows, 1, PageCount(|rows|));
  }

  // ---------------------------------------------------------------------------
  // The Prev and Next buttons

  /** Prev is enabled unless `page === 1`. */
  predicate PrevEnabled(page: int)
    ensures page == 1 ==> !PrevEnabled(page)
    ensures page >= 2 ==> PrevEnabled(page)
  {
    page != 1
  }

  /** Next is enabled unless `page === totalPages`. */
  predicate NextEnabled(page: int, totalPages: nat)
    ensures page == totalPages ==> !NextEnabled(page, totalPages)
    ensures page < totalPages ==> NextEnabled(page, totalPages)
    ensures page > totalPages ==> NextEnabled(page, totalPages)
  {
    page != totalPages
  }

  /** The page after a click on Prev. */
  function AfterPrev(page: int): (r: int)
    ensures page >= 1 ==> r >= 1
    ensures r == page || r == page - 1
    ensures r != page <==> PrevEnabled(page)
  {
    if PrevEnabled(page) then page - 1 else page
  }

  /** The page after a click on Next. */
  function AfterNext(page: int, totalPages: nat): (r: int)
    ensures r == page || r == page + 1
    ensures r != page <==> NextEnabled(page, totalPages)
    ensures 1 <= page <= totalPages ==> 1 <= r <= totalPages
  {
    if NextEnabled(page, totalPages) then page + 1 else page
  }

  /** Next is only disabled on the last page itself: with no rows at all
      (totalPages is 0) it stays enabled on page 1 and leads to an empty page 2. */
  lemma NextLeavesEmptyResult<T>(rows: seq<T>)
    requires rows == []
    ensures NextEnabled(1, PageCount(|rows|))
    ensures AfterNext(1, PageCount(|rows|)) == 2
    ensures Window(rows, AfterNext(1, PageCount(|rows|))) == []
  {
  }
}
