/** The pagination calculator of search.go: five pure helpers that turn a
    1-based page number and a page size into the offset and limit of a find
    query, and a row count into a page count and next/previous flags.

    Page 0 and page size 0 are sentinels: the helpers answer -1 for them,
    which the backend reads as "no offset" and "no limit". Each helper
    computes with Go's 64-bit machine integers exactly as the source does
    (wrapping conversions and arithmetic, truncating division); the lemmas
    state what the results mean on every input whose products fit in `int64`. */
module Paging {

  import opened GoInt

  /** Offset of the first row of `page`: -1 for page 0, otherwise
      `int(pageSize * (page - 1))` with `uint` multiplication. */
  function GetOffset(page: Uint64, pageSize: Uint64): (offset: Int64)
    ensures page == 0 ==> offset == -1
    ensures 0 < page && pageSize * (page - 1) <= MaxInt64 ==> offset == pageSize * (page - 1)
  {
    if page == 0 then -1
    else
      var product: int := pageSize * (page - 1);
      assert 0 <= product by { MulMonotone(0, pageSize, page - 1); }
      ToInt64(ToUint64(product))
  }

  /** Row limit of one page: -1 for page size 0, otherwise `int(pageSize)`.
      The limit is never 0, so a page query never asks for no rows. */
  function GetLimit(pageSize: Uint64): (limit: Int64)
    ensures pageSize == 0 ==> limit == -1
    ensures 0 < pageSize <= MaxInt64 ==> limit == pageSize
    ensures limit != 0
  {
    if pageSize == 0 then -1 else ToInt64(pageSize)
  }

  /** `(totalCount + int64(limit-1)) / int64(pageSize)` in `int64`
      arithmetic. It divides by the page size, not by the limit, so a page
      size of 0 is a division by zero (a run-time panic in Go). */
  function CountTotalPages(totalCount: Int64, limit: Int64, pageSize: Uint64): (totalPages: Int64)
    requires pageSize != 0
    ensures 0 <= totalCount && 0 < limit && totalCount + limit - 1 <= MaxInt64 && pageSize <= MaxInt64
      ==> totalPages == (totalCount + limit - 1) / pageSize
  {
    Quo64(ToInt64(totalCount + ToInt64(limit - 1)), ToInt64(pageSize))
  }

  /** `int64(int(page) * limit) < totalCount`. */
  function GetHasNextPage(page: Uint64, limit: Int64, totalCount: Int64): (hasNext: bool)
    ensures page <= MaxInt64 && MinInt64 <= page * limit <= MaxInt64
      ==> (hasNext <==> page * limit < totalCount)
  {
    ToInt64(ToInt64(page) * limit) < totalCount
  }

  /** `page > 1`: the page before this one is itself a numbered page
      (page 0 stands for "no pagination", not for a page before page 1). */
  function GetHasPreviousPage(page: Uint64): (hasPrev: bool)
    ensures hasPrev <==> 1 <= page - 1
  {
    page > 1
  }

  /** The inputs for which page arithmetic does not leave `int64`: the row
      index just past the page still fits. */
  predicate PageFits(page: Uint64, pageSize: Uint64)
  {
    page * pageSize <= MaxInt64
  }

  /** The counts for which the page count does not leave `int64`. */
  predicate CountFits(totalCount: int, pageSize: int)
  {
    0 <= totalCount && 0 < pageSize <= MaxInt64 && totalCount + pageSize - 1 <= MaxInt64
  }

  /** Position `row` (0-based, in one fixed order of the matching rows)
      lies in the window of offset and limit that the find for `page` asks
      for. The lemmas about it take pages from 1 on: page 0's window is the
      sentinel offset -1 with the page size as limit. */
  predicate OnPage(row: int, page: Uint64, pageSize: Uint64)
  {
    GetOffset(page, pageSize) <= row < GetOffset(page, pageSize) + GetLimit(pageSize)
  }

  /** The page that holds row `row`, in the model's own terms. */
  function PageOf(row: nat, pageSize: nat): (page: nat)
    requires 0 < pageSize
    ensures 1 <= page <= row + 1
  {
    DivideNat(row, pageSize);
    row / pageSize + 1
  }

  /** Pages tile the results: page `page + 1` starts exactly where page
      `page` ends, so consecutive pages neither overlap nor leave a gap. */
  lemma {:induction false} PagesAreContiguous(page: Uint64, pageSize: Uint64)
    requires 1 <= page && 0 < pageSize && PageFits(page, pageSize)
    ensures GetOffset(page + 1, pageSize) == GetOffset(page, pageSize) + GetLimit(pageSize)
    ensures 0 <= GetOffset(page, pageSize)
  {
    MulMonotone(page - 1, page, pageSize);
    assert pageSize * page == pageSize * (page - 1) + pageSize;
  }

  /** A row lies on exactly one page: page `page` returns row `row` if and
      only if `page` is the row's own page. */
  lemma {:induction false} RowOnExactlyOnePage(row: nat, page: Uint64, pageSize: Uint64)
    requires 1 <= page && 0 < pageSize && PageFits(page, pageSize)
    ensures OnPage(row, page, pageSize) <==> page == PageOf(row, pageSize)
  {
    MulMonotone(page - 1, page, pageSize);
    MulMonotone(1, page, pageSize);
    assert GetOffset(page, pageSize) == pageSize * (page - 1);
    assert GetLimit(pageSize) == pageSize;
    DivisionIsUnique(row, pageSize, page - 1);
  }

  /** Page count is a ceiling: with a positive page size, `n` pages of
      `pageSize` rows hold the `totalCount` rows, and `n - 1` pages do not. */
  lemma {:induction false} TotalPagesIsCeiling(totalCount: Int64, pageSize: Uint64)
    requires CountFits(totalCount, pageSize)
    ensures var n := CountTotalPages(totalCount, GetLimit(pageSize), pageSize);
      0 <= n && totalCount <= n * pageSize < totalCount + pageSize
  {
    var n := CountTotalPages(totalCount, GetLimit(pageSize), pageSize);
    assert n == (totalCount + pageSize - 1) / pageSize;
    DivideNat(totalCount + pageSize - 1, pageSize);
  }

  /** The next-page flag is set exactly on the pages before the last one,
      which is when the next page's offset still points at a row. */
  lemma {:induction false} HasNextPageIffBeforeLastPage(page: Uint64, totalCount: Int64, pageSize: Uint64)
    requires CountFits(totalCount, pageSize)
    requires PageFits(page, pageSize)
    ensures page + 1 <= MaxUint64
    ensures GetHasNextPage(page, GetLimit(pageSize), totalCount)
      <==> page < CountTotalPages(totalCount, GetLimit(pageSize), pageSize)
    ensures GetHasNextPage(page, GetLimit(pageSize), totalCount)
      <==> GetOffset(page + 1, pageSize) < totalCount
  {
    var n := CountTotalPages(totalCount, GetLimit(pageSize), pageSize);
    MulMonotone(1, pageSize, page);
    TotalPagesIsCeiling(totalCount, pageSize);
    MultipleBelowCeiling(page, n, pageSize, totalCount);
    assert GetLimit(pageSize) == pageSize;
    assert GetHasNextPage(page, pageSize, totalCount) <==> page * pageSize < totalCount;
    assert GetOffset(page + 1, pageSize) == pageSize * page;
  }

  /** The previous-page flag is set exactly when the page starts past the
      first row. */
  lemma {:induction false} HasPreviousPageIffOffsetPositive(page: Uint64, pageSize: Uint64)
    requires 0 < pageSize && PageFits(page, pageSize)
    ensures GetHasPreviousPage(page) <==> 0 < GetOffset(page, pageSize)
  {
    if 1 <= page {
      MulMonotone(page - 1, page, pageSize);
      if 2 <= page {
        MulMonotone(1, page - 1, pageSize);
      }
    }
  }

  /** Every row of the result set is on a page no later than the last one. */
  lemma {:induction false} RowOnCountedPage(row: nat, totalCount: Int64, pageSize: Uint64)
    requires CountFits(totalCount, pageSize)
    requires row < totalCount
    ensures PageOf(row, pageSize) <= CountTotalPages(totalCount, GetLimit(pageSize), pageSize)
    ensures OnPage(row, PageOf(row, pageSize), pageSize)
  {
    var s: int, n: int := pageSize, CountTotalPages(totalCount, GetLimit(pageSize), pageSize);
    TotalPagesIsCeiling(totalCount, pageSize);
    var q: int := row / s;
    DivideNat(row, s);
    if n <= q {
      MulMonotone(n, q, s);
      assert false;
    }
    MulMonotone(q + 1, n, s);
    assert PageFits(q + 1, pageSize);
    RowOnExactlyOnePage(row, q + 1, pageSize);
  }

  /** No page from the first to the last is empty. */
  lemma {:induction false} CountedPageNotEmpty(page: Uint64, totalCount: Int64, pageSize: Uint64)
    requires CountFits(totalCount, pageSize)
    requires 1 <= page <= CountTotalPages(totalCount, GetLimit(pageSize), pageSize)
    ensures GetOffset(page, pageSize) < totalCount
  {
    var s: int, n: int := pageSize, CountTotalPages(totalCount, GetLimit(pageSize), pageSize);
    TotalPagesIsCeiling(totalCount, pageSize);
    var o: int := (page - 1) * s;
    MulMonotone(page - 1, n - 1, s);
    assert (n - 1) * s == n * s - s;
    assert o < totalCount;
    assert pageSize * (page - 1) == o;
    assert GetOffset(page, pageSize) == o;
  }

  /** The page after the last one starts past the last row. */
  lemma {:induction false} PageAfterLastIsEmpty(totalCount: Int64, pageSize: Uint64)
    requires CountFits(totalCount, pageSize)
    ensures var n := CountTotalPages(totalCount, GetLimit(pageSize), pageSize);
      n + 1 <= MaxUint64 && totalCount <= GetOffset(n + 1, pageSize)
  {
    var n: int := CountTotalPages(totalCount, GetLimit(pageSize), pageSize);
    TotalPagesIsCeiling(totalCount, pageSize);
    MulMonotone(1, pageSize, n);
    assert GetOffset(n + 1, pageSize) == pageSize * n;
  }

  /** The figures of the hundred-row search scenario: 100 rows in pages of
      10 make 10 pages (101 rows make 11); pages 0 and 1 have a next page
      and no previous one; page 10 starts at row 90 and has no next page. */
  lemma HundredRowsInPagesOfTen()
    ensures CountTotalPages(100, GetLimit(10), 10) == 10
    ensures CountTotalPages(101, GetLimit(10), 10) == 11
    ensures GetHasNextPage(0, GetLimit(10), 100) && !GetHasPreviousPage(0)
    ensures GetHasNextPage(1, GetLimit(10), 100) && !GetHasPreviousPage(1)
    ensures GetOffset(10, 10) == 90 && !GetHasNextPage(10, GetLimit(10), 100)
    ensures GetHasPreviousPage(2)
  {
  }
}
