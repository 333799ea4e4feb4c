/** The fixed-size pagination of the attendance table: the page count and the
    row range `start_idx .. end_idx` shown for a page number. Pagination only
    runs for a frame that is not empty (see `View.FrameEmpty`), and such a
    frame holds at least one document. */
module Paging {
  import opened Arithmetic

  const ROWS_PER_PAGE: nat := 50

  /** `math.ceil(total_rows / ROWS_PER_PAGE)`: the least page count whose pages
      hold every row. */
  function TotalPages(totalRows: nat): (pages: nat)
    ensures pages * ROWS_PER_PAGE >= totalRows
    ensures pages == 0 || (pages - 1) * ROWS_PER_PAGE < totalRows
  {
    CeilDiv(totalRows, ROWS_PER_PAGE)
  }

  /** A page number the page selector can produce: it is bounded by
      `min_value=1` and `max_value=total_pages`. */
  predicate ValidPage(totalRows: nat, page: int)
    ensures ValidPage(totalRows, page) ==> 0 < totalRows && (page - 1) * ROWS_PER_PAGE < totalRows
  {
    1 <= page <= TotalPages(totalRows)
  }

  /** `start_idx`: the number of rows on the pages before `page`. */
  function PageStart(totalRows: nat, page: nat): (start: nat)
    requires ValidPage(totalRows, page)
    ensures start < totalRows
    ensures start % ROWS_PER_PAGE == 0
  {
    (page - 1) * ROWS_PER_PAGE
  }

  /** `end_idx`: one past the last row of `page`. */
  function PageEnd(totalRows: nat, page: nat): (end: nat)
    requires ValidPage(totalRows, page)
    ensures PageStart(totalRows, page) < end <= totalRows
    ensures end - PageStart(totalRows, page) <= ROWS_PER_PAGE
    ensures page < TotalPages(totalRows) ==> end - PageStart(totalRows, page) == ROWS_PER_PAGE
    ensures page == TotalPages(totalRows) ==> end == totalRows
  {
    var start := PageStart(totalRows, page);
    if start + ROWS_PER_PAGE < totalRows then start + ROWS_PER_PAGE else totalRows
  }

  /** `df.iloc[start_idx:end_idx]`: the rows shown on `page`, in table order. */
  function PageSlice<T>(rows: seq<T>, page: nat): (shown: seq<T>)
    requires ValidPage(|rows|, page)
    ensures 1 <= |shown| <= ROWS_PER_PAGE
    ensures |shown| == PageEnd(|rows|, page) - PageStart(|rows|, page)
    ensures forall j :: 0 <= j < |shown| ==> shown[j] == rows[PageStart(|rows|, page) + j]
  {
    rows[PageStart(|rows|, page)..PageEnd(|rows|, page)]
  }

  /** A non-empty table has at least one page. */
  lemma NonEmptyHasPages(totalRows: nat)
    requires totalRows > 0
    ensures TotalPages(totalRows) >= 1
    ensures ValidPage(totalRows, 1)
  {
  }

  /** Consecutive pages meet: each page begins where the previous one ends. */
  lemma PagesContiguous(totalRows: nat, page: nat)
    requires ValidPage(totalRows, page) && page < TotalPages(totalRows)
    ensures PageEnd(totalRows, page) == PageStart(totalRows, page + 1)
  {
  }

  /** Every row lies on exactly one page, the one its position determines:
      pages are disjoint and together cover the table. */
  lemma RowOnOnePage(totalRows: nat, row: nat, page: nat)
    requires row < totalRows && ValidPage(totalRows, page)
    ensures PageStart(totalRows, page) <= row < PageEnd(totalRows, page)
            <==> page == row / ROWS_PER_PAGE + 1
  {
  }

  /** The rows of pages `1 ..= count`, one page after the other. */
  function PagesUpTo<T>(rows: seq<T>, count: nat): seq<T>
    requires count <= TotalPages(|rows|)
  {
    if count == 0 then [] else PagesUpTo(rows, count - 1) + PageSlice(rows, count)
  }

  /** The first `count` pages are exactly the table up to the end of page `count`. */
  lemma {:induction false} PagesUpToIsPrefix<T>(rows: seq<T>, count: nat)
    requires 1 <= count <= TotalPages(|rows|)
    ensures PagesUpTo(rows, count) == rows[..PageEnd(|rows|, count)]
  {
    if count == 1 {
      assert PagesUpTo(rows, 0) == [];
    } else {
      PagesUpToIsPrefix(rows, count - 1);
      PagesContiguous(|rows|, count - 1);
      var a := PageEnd(|rows|, count - 1);
      var b := PageEnd(|rows|, count);
      assert rows[..a] + rows[a..b] == rows[..b];
    }
  }

  /** Reading every page in turn reproduces the whole ordered table. */
  lemma PagesCoverTable<T>(rows: seq<T>)
    ensures PagesUpTo(rows, TotalPages(|rows|)) == rows
  {
    if |rows| > 0 {
      PagesUpToIsPrefix(rows, TotalPages(|rows|));
    }
  }
}
