/** The paging and search-filter arithmetic the catalogue repositories (care products, chick
    types, diseases, staff) share: `LIMIT per_page OFFSET (page - 1) * per_page` over the
    matching rows, the page count, and the optional `LIKE '%term%'` conditions. */
module Pagination {
  import opened Wrappers
  import opened MachineInts
  import opened Text

  /** What a paged read hands back (`PaginatedSoin` and its siblings). */
  datatype Page<T> = Page(
    data: seq<T>,
    total: int,
    page: u32,
    limit: u32,
    totalPages: u32,
    hasNext: bool,
    hasPrev: bool)

  /** `page.saturating_sub(1) * per_page` on `u32`, wrapping on overflow. */
  function Offset(page: u32, perPage: u32): (r: u32)
    ensures page == 0 ==> r == 0
    ensures page >= 1 && (page - 1) * perPage <= U32_MAX ==> r == (page - 1) * perPage
    ensures page >= 1 ==> (r - (page - 1) * perPage) % 0x1_0000_0000 == 0
  {
    WrappingMulU32(SaturatingSubU32(page, 1), perPage)
  }

  /** `ceil(total as f64 / per_page as f64) as u32`, or 1 when nothing matches. A zero page
      size divides into +inf, which the cast saturates to `u32::MAX`, as it does any count
      too large for `u32`. */
  function TotalPages(total: nat, perPage: u32): (r: u32)
    ensures total == 0 ==> r == 1
    ensures total > 0 && perPage == 0 ==> r == U32_MAX
    ensures total > 0 && perPage > 0 && r < U32_MAX ==> (r - 1) * perPage < total <= r * perPage
    ensures total > 0 && perPage > 0 ==> r >= 1
  {
    if total == 0 then 1
    else if perPage == 0 then U32_MAX
    else
      var c := (total + perPage - 1) / perPage;
      CeilingDivision(total, perPage);
      if c > U32_MAX then U32_MAX else c
  }

  /** The integer ceiling is the one whole number of pages that holds every row with room
      for less than a page. */
  lemma CeilingDivision(total: nat, perPage: nat)
    requires total > 0 && perPage > 0
    ensures var c := (total + perPage - 1) / perPage;
      c >= 1 && (c - 1) * perPage < total <= c * perPage
  {
    var c := (total + perPage - 1) / perPage;
    var m := (total + perPage - 1) % perPage;
    assert total + perPage - 1 == c * perPage + m;
    assert c * perPage - perPage < total;
    assert (c - 1) * perPage == c * perPage - perPage;
  }

  /** The rows a `LIMIT limit OFFSET offset` keeps. */
  function Slice<T>(rows: seq<T>, offset: nat, limit: nat): (r: seq<T>)
    ensures offset >= |rows| ==> r == []
    ensures offset < |rows| ==> |r| == if |rows| - offset < limit then |rows| - offset else limit
    ensures forall k :: 0 <= k < |r| ==> offset + k < |rows| && r[k] == rows[offset + k]
  {
    if offset >= |rows| then []
    else if |rows| - offset < limit then rows[offset..]
    else rows[offset..offset + limit]
  }

  /** One page of the matching rows `rows`, with its bookkeeping. */
  function Paginate<T>(rows: seq<T>, page: u32, perPage: u32): (p: Page<T>)
    ensures p.total == |rows| && p.page == page && p.limit == perPage
    ensures |p.data| <= perPage
    ensures forall k :: 0 <= k < |p.data| ==> p.data[k] in rows
    ensures p.hasNext <==> page < TotalPages(|rows|, perPage)
    ensures p.hasPrev <==> page > 1
  {
    var total := TotalPages(|rows|, perPage);
    Page(Slice(rows, Offset(page, perPage), perPage), |rows|, page, perPage, total, page < total, page > 1)
  }

  /** Every matching row is on exactly the page its position says: row `i` is entry
      `i % per_page` of page `i / per_page + 1` (when the offset does not wrap). */
  lemma PageHoldsRow<T>(rows: seq<T>, perPage: u32, i: nat)
    requires perPage > 0 && i < |rows|
    requires i / perPage + 1 <= U32_MAX
    requires (i / perPage) * perPage <= U32_MAX
    ensures var p := Paginate(rows, (i / perPage + 1) as u32, perPage);
      i % perPage < |p.data| && p.data[i % perPage] == rows[i]
  {
    var page := (i / perPage + 1) as u32;
    var offset := Offset(page, perPage);
    assert offset == (i / perPage) * perPage;
    assert offset + i % perPage == i;
  }

  /** Every page from 1 to the page count holds at least one row when some row matches, and
      the last page is the one without a next. */
  lemma PagesUpToCountAreFilled<T>(rows: seq<T>, page: u32, perPage: u32)
    requires |rows| > 0 && perPage > 0
    requires 1 <= page <= TotalPages(|rows|, perPage) < U32_MAX
    requires (page - 1) * perPage <= U32_MAX
    ensures |Paginate(rows, page, perPage).data| > 0
    ensures !Paginate(rows, page, perPage).hasNext <==> page == TotalPages(|rows|, perPage)
  {
    var c := TotalPages(|rows|, perPage);
    assert (page - 1) * perPage <= (c - 1) * perPage by {
      MulMonotone(page - 1, c - 1, perPage);
    }
  }

  lemma MulMonotone(a: nat, b: nat, k: nat)
    requires a <= b
    ensures a * k <= b * k
  {
  }

  /** The search term a repository uses: none when the input is absent or blank, otherwise
      the input trimmed. */
  function Term(search: Option<string>): (r: Option<string>)
    ensures r.Some? <==> search.Some? && !IsBlank(search.value)
    ensures r.Some? ==> r.value == Trim(search.value) && |r.value| > 0
  {
    match search
    case None => None
    case Some(s) => if IsBlank(s) then None else Some(Trim(s))
  }

  /** The condition a term adds: `column LIKE '%term%'`, or nothing at all. */
  predicate Matches(term: Option<string>, column: string) {
    term.None? || Like(ContainsPattern(term.value), column)
  }

  /** A blank or absent search keeps every row. */
  lemma BlankSearchKeepsAll(search: Option<string>, column: string)
    requires search.None? || IsBlank(search.value)
    ensures Matches(Term(search), column)
  {
  }
}
