/**
 * The pager: the page slice `paginatedRows` (data-table.tsx, lines 187-191)
 * and the pagination footer (lines 334-336, 413, 419, 430). Page numbers and
 * sizes are JavaScript numbers restricted here to integers.
 */
module Paging {

  function Min(a: int, b: int): int {
    if a <= b then a else b
  }

  /** How `Array.prototype.slice` reads an index: negative counts from the end; clamped to [0, len]. */
  function RelativeIndex(i: int, len: nat): (k: nat)
    ensures k <= len
  {
    if i < 0 then (if len + i < 0 then 0 else len + i)
    else if i < len then i
    else len
  }

  /** `s.slice(start, end)`. */
  function Slice<T>(s: seq<T>, start: int, end: int): (r: seq<T>)
    ensures |r| <= |s|
    ensures multiset(r) <= multiset(s)
  {
    var from, to := RelativeIndex(start, |s|), RelativeIndex(end, |s|);
    if from < to then
      assert s == s[..from] + s[from..to] + s[to..];
      s[from..to]
    else []
  }

  /** `paginatedRows`: the slice is taken whether or not a total is supplied; every row it shows is a row of `s`. */
  function PageRows<T>(s: seq<T>, page: int, size: int): (r: seq<T>)
    ensures multiset(r) <= multiset(s)
  {
    var start := page * size;
    Slice(s, start, start + size)
  }

  lemma MulMonotone(a: int, b: int, c: int)
    requires a <= b && c >= 0
    ensures a * c <= b * c
  {
    assert b * c - a * c == (b - a) * c;
  }

  /** For a page and size that are not negative, the page is the window [page*size, page*size+size) of `s`, cut at its end. */
  lemma PageWindow<T>(s: seq<T>, page: int, size: int)
    requires page >= 0 && size >= 0
    ensures var lo, hi := Min(page * size, |s|), Min(page * size + size, |s|);
      lo <= hi && PageRows(s, page, size) == s[lo..hi]
    ensures |PageRows(s, page, size)| <= size
  {
  }

  /** `PageWindow` for callers that cannot tell whether the page and size are negative. */
  lemma PageWindowFrom<T>(s: seq<T>, page: int, size: int)
    ensures page >= 0 && size >= 0 ==>
      var lo, hi := Min(page * size, |s|), Min(page * size + size, |s|);
      lo <= hi && PageRows(s, page, size) == s[lo..hi] && |PageRows(s, page, size)| <= size
  {
    if page >= 0 && size >= 0 {
      PageWindow(s, page, size);
    }
  }

  /** Every row lies on page i / size, at position i % size: paging loses no row. */
  lemma RowOnItsPage<T>(s: seq<T>, size: int, i: int)
    requires size > 0 && 0 <= i < |s|
    ensures i / size >= 0
    ensures i % size < |PageRows(s, i / size, size)|
    ensures PageRows(s, i / size, size)[i % size] == s[i]
  {
    var p, m := i / size, i % size;
    assert i == p * size + m;
    PageWindow(s, p, size);
  }

  /**
   * Conversely, slot k of page q >= 0 shows row q * size + k, whose page is q
   * and whose position is k: a row appears on no page but its own.
   */
  lemma PageShowsOnlyItsRows<T>(s: seq<T>, size: int, q: int, k: int)
    requires size > 0 && q >= 0 && 0 <= k < |PageRows(s, q, size)|
    ensures 0 <= q * size + k < |s|
    ensures PageRows(s, q, size)[k] == s[q * size + k]
    ensures (q * size + k) / size == q && (q * size + k) % size == k
  {
    PageWindow(s, q, size);
    DivOfPageSlot(q, size, k);
  }

  lemma DivOfPageSlot(q: int, size: int, k: int)
    requires size > 0 && 0 <= k < size
    ensures (q * size + k) / size == q && (q * size + k) % size == k
  {
    var i := q * size + k;
    var d, m := i / size, i % size;
    assert (d - q) * size == k - m;
    if d > q {
      MulMonotone(1, d - q, size);
    } else if d < q {
      MulMonotone(1, q - d, size);
    }
  }

  /**
   * Negative pages follow `slice`'s rule for negative indices: page -1 is
   * empty, and a page below -1 is the window that starts -page * size rows
   * back from the end of `s`, cut at row 0. When `s` holds at least
   * -page * size rows that window has all `size` rows; otherwise it is shorter
   * and may be empty.
   */
  lemma NegativePages<T>(s: seq<T>, page: int, size: int)
    requires size > 0 && page < 0
    ensures page == -1 ==> PageRows(s, page, size) == []
    ensures page <= -2 && -page * size <= |s| ==>
      var from := |s| + page * size;
      0 <= from <= from + size <= |s| && PageRows(s, page, size) == s[from..from + size]
    ensures page <= -2 ==>
      var lo := if |s| + page * size < 0 then 0 else |s| + page * size;
      var hi := if |s| + page * size + size < 0 then 0 else |s| + page * size + size;
      lo <= hi <= |s| && PageRows(s, page, size) == s[lo..hi]
  {
    var start := page * size;
    var end := start + size;
    assert PageRows(s, page, size) == Slice(s, start, end);
    assert (page + 1) * size == end;
    MulMonotone(page + 1, 0, size);
    if page <= -2 {
      MulMonotone(page + 1, -1, size);
      assert start < end < 0;
    }
    SliceBeforeZero(s, start, end);
  }

  /** `slice` with an end index that is not positive, in index arithmetic only. */
  lemma SliceBeforeZero<T>(s: seq<T>, start: int, end: int)
    requires end <= 0
    ensures end == 0 ==> Slice(s, start, end) == []
    ensures start < end < 0 && -start <= |s| ==> Slice(s, start, end) == s[|s| + start..|s| + end]
    ensures start < end < 0 ==>
      var lo := if |s| + start < 0 then 0 else |s| + start;
      var hi := if |s| + end < 0 then 0 else |s| + end;
      lo <= hi <= |s| && Slice(s, start, end) == s[lo..hi]
  {
  }

  /** `Math.ceil(total / size)`, which is not a finite number when the size is 0. */
  datatype PageCount = Pages(n: int) | PosInfinity | NegInfinity | NotANumber

  /** The ceiling of a / b for b != 0. */
  function CeilDiv(a: int, b: int): (q: int)
    requires b != 0
    ensures b > 0 ==> (q - 1) * b < a <= q * b
    ensures b < 0 ==> q * b <= a < (q - 1) * b
  {
    if b > 0 then -((-a) / b) else -(a / (-b))
  }

  /** `totalPages` (line 334): enough pages of `size` rows for `total` rows, and one fewer would not do. */
  function TotalPages(total: int, size: int): (count: PageCount)
    ensures size != 0 <==> count.Pages?
    ensures size > 0 ==> (count.n - 1) * size < total <= count.n * size
  {
    if size == 0 then
      (if total > 0 then PosInfinity else if total < 0 then NegInfinity else NotANumber)
    else Pages(CeilDiv(total, size))
  }

  /** The footer: `startRow`, `endRow` (lines 335-336) and the disabled flags of the two buttons (lines 419, 430). */
  datatype PageInfo = PageInfo(
    totalPages: PageCount, startRow: int, endRow: int, prevDisabled: bool, nextDisabled: bool)

  /** `currentPage >= totalPages - 1`, with JavaScript's comparisons against infinities and NaN. */
  function NextDisabled(page: int, count: PageCount): bool {
    match count
    case Pages(n) => page >= n - 1
    case PosInfinity => false
    case NegInfinity => true
    case NotANumber => false
  }

  /**
   * The footer for `page`: prev is disabled on page 0 only; `startRow` is one
   * past the index of the page's first row; for a positive size, next is
   * disabled exactly when no row lies past the page, and on a page that
   * starts before `total` the label counts the rows the page holds.
   */
  function Footer(page: int, size: int, total: int): (info: PageInfo)
    ensures info.prevDisabled <==> page == 0
    ensures info.startRow - 1 == page * size
    ensures size > 0 && total >= 0 ==>
      && info.totalPages.Pages?
      && (info.nextDisabled <==> (page + 1) * size >= total)
    ensures size > 0 && page >= 0 && page * size < total ==>
      info.endRow - info.startRow + 1 == Min(size, total - page * size)
  {
    var count := TotalPages(total, size);
    var info := PageInfo(count, page * size + 1, Min((page + 1) * size, total), page == 0, NextDisabled(page, count));
    assert (page + 1) * size == page * size + size;
    if size > 0 && total >= 0 then
      NextDisabledMeansLastPage(page, size, total);
      info
    else info
  }

  lemma NextDisabledMeansLastPage(page: int, size: int, total: int)
    requires size > 0 && total >= 0
    ensures NextDisabled(page, TotalPages(total, size)) <==> (page + 1) * size >= total
  {
    var n := TotalPages(total, size).n;
    if page >= n - 1 {
      MulMonotone(n, page + 1, size);
    } else {
      MulMonotone(page + 1, n - 1, size);
    }
  }

  /** For a positive size, the page count is the least number of pages that hold `total` rows. */
  lemma PageCountCoversRows(total: int, size: int)
    requires size > 0 && total >= 0
    ensures TotalPages(total, size).Pages?
    ensures var n := TotalPages(total, size).n;
      n >= 0 && total <= n * size && (n - 1) * size < total
  {
  }

  /**
   * On client-side paging, the label "startRow-endRow of total" names exactly
   * the rows on a non-empty page, as 1-based positions in `s`.
   */
  lemma FooterDescribesPage<T>(s: seq<T>, page: int, size: int)
    requires size > 0 && page >= 0 && page * size < |s|
    ensures var info, rows := Footer(page, size, |s|), PageRows(s, page, size);
      && |rows| == info.endRow - info.startRow + 1
      && rows[0] == s[info.startRow - 1]
    ensures var info := Footer(page, size, |s|);
      && 0 < info.startRow <= info.endRow <= |s|
      && PageRows(s, page, size) == s[info.startRow - 1..info.endRow]
  {
    PageWindow(s, page, size);
    assert (page + 1) * size == page * size + size;
  }

  /** A page index in [0, totalPages) shows at least one row; one at or past totalPages shows none. */
  lemma InRangePagesAreNonEmpty<T>(s: seq<T>, page: int, size: int)
    requires size > 0 && page >= 0
    ensures TotalPages(|s|, size).Pages?
    ensures page < TotalPages(|s|, size).n <==> PageRows(s, page, size) != []
  {
    PageCountCoversRows(|s|, size);
    PageWindow(s, page, size);
    var n := TotalPages(|s|, size).n;
    if page < n {
      MulMonotone(page, n - 1, size);
    } else {
      MulMonotone(n, page, size);
    }
  }

  /**
   * The buttons keep an in-range page in range: prev is enabled only above
   * page 0, next only below the last page, so stepping through an enabled
   * button lands on a page in [0, totalPages).
   */
  lemma ButtonsStayInRange(page: int, size: int, total: int)
    requires size > 0 && total >= 0
    requires TotalPages(total, size).Pages? && 0 <= page < TotalPages(total, size).n
    ensures var info := Footer(page, size, total);
      && (!info.prevDisabled ==> 0 <= page - 1 < info.totalPages.n)
      && (!info.nextDisabled ==> 0 <= page + 1 < info.totalPages.n)
      && (info.nextDisabled <==> page == info.totalPages.n - 1)
  {
  }
}
