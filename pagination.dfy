/** Offset pagination of the filtered rows (`get_data`, lines 122-124). */
module Pagination {
  import opened Wrappers
  import opened Seqs

  /** One page of results and whether rows remain after it. */
  datatype Page<T> = Page(data: seq<T>, hasMore: bool)

  datatype PageError = InvalidPageRequest

  /** `start = max(0, (page - 1) * page_size)` */
  function PageStart(page: int, pageSize: int): nat {
    var s := (page - 1) * pageSize;
    if s < 0 then 0 else s
  }

  /** Lines 122-124 as written: `df.iloc[start:start + page_size]` with
      Python's slice rules, and `len(df) > start + page_size`. Nothing
      checks `page` or `page_size`. */
  function CutPage<T>(rows: seq<T>, page: int, pageSize: int): (r: Page<T>)
    ensures |r.data| <= |rows|
    ensures forall i :: 0 <= i < |r.data| ==> r.data[i] in rows
  {
    var start := PageStart(page, pageSize);
    Page(PySlice(rows, start, start + pageSize), |rows| > start + pageSize)
  }

  /** The page request with its evident precondition: `page` and
      `page_size` must both be at least 1, otherwise the request is
      rejected rather than sliced. */
  function Paginate<T>(rows: seq<T>, page: int, pageSize: int): (r: Result<Page<T>, PageError>)
    ensures r.Success? <==> page >= 1 && pageSize >= 1
    ensures r.Success? ==> r.value == CutPage(rows, page, pageSize)
  {
    if page < 1 || pageSize < 1 then Failure(InvalidPageRequest)
    else Success(CutPage(rows, page, pageSize))
  }

  function Min(a: int, b: int): int {
    if a <= b then a else b
  }

  /** For a valid request the offset is `(page - 1) * page_size` and the
      page ends at `page * page_size`. */
  lemma PageOffsets(page: int, pageSize: int)
    requires page >= 1 && pageSize >= 1
    ensures PageStart(page, pageSize) == (page - 1) * pageSize
    ensures PageStart(page, pageSize) + pageSize == page * pageSize
  {
    assert (page - 1) * pageSize >= 0;
  }

  /** A valid request returns the rows from the page's offset up to
      `page_size` rows later (fewer at the end), none when the offset is
      past the end, and `has_more` exactly when rows remain beyond the
      page, in which case the page is full. */
  lemma PaginateSpec<T>(rows: seq<T>, page: int, pageSize: int)
    requires page >= 1 && pageSize >= 1
    ensures var start := PageStart(page, pageSize);
      && Paginate(rows, page, pageSize).Success?
      && var p := Paginate(rows, page, pageSize).value;
      && (start < |rows| ==> p.data == rows[start..Min(start + pageSize, |rows|)])
      && (start >= |rows| ==> p.data == [])
      && |p.data| <= pageSize
      && (p.hasMore <==> |rows| > start + pageSize)
      && (p.hasMore ==> |p.data| == pageSize)
  {
  }

  /** With a negative `page_size` the code as written slices up to a
      negative end, which Python counts from the end: page 1 of size -1 of
      three rows holds two rows, and `has_more` is true. */
  lemma NegativePageSizeAsWritten<T>(rows: seq<T>)
    requires |rows| == 3
    ensures CutPage(rows, 1, -1) == Page(rows[..2], true)
  {
  }

  /** With a negative `page_size` page 0 is not page 1 as written: page 0
      starts at `max(0, 1) = 1` and is empty, while page 1 holds all rows
      but the last. */
  lemma NegativeSizePageZeroAsWritten<T>(rows: seq<T>)
    requires |rows| == 3
    ensures CutPage(rows, 0, -1).data == []
    ensures CutPage(rows, 1, -1).data == rows[..2]
    ensures CutPage(rows, 0, -1) != CutPage(rows, 1, -1)
  {
  }

  /** For a page size of at least 0, page 0 (or any page below 1) is
      served as page 1 by the code as written. */
  lemma PageZeroAsWritten<T>(rows: seq<T>, page: int, pageSize: nat)
    requires page <= 1
    ensures CutPage(rows, page, pageSize) == CutPage(rows, 1, pageSize)
  {
    var m := 1 - page;
    assert m * pageSize >= 0;
    assert (page - 1) * pageSize == -(m * pageSize);
  }

  /** Thirty-six filtered rows in pages of ten: page 2 is rows 10-19 with
      more to come, page 4 is the last six rows. */
  lemma ThirtySixRows<T>(rows: seq<T>)
    requires |rows| == 36
    ensures Paginate(rows, 2, 10) == Success(Page(rows[10..20], true))
    ensures Paginate(rows, 4, 10) == Success(Page(rows[30..36], false))
  {
  }
}
