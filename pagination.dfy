/**
 * components/Pagination.tsx: a previous and a next button around "page p /
 * n". The home page uses the same two disabled rules for its links.
 */
module Pagination {
  import opened Wrappers

  predicate PrevDisabled(page: int) { page <= 1 }

  predicate NextDisabled(page: int, totalPages: int) { page >= totalPages }

  /** What a click on "previous" asks for: `page - 1`, or nothing when disabled. */
  function PrevRequest(page: int): (r: Option<int>)
    ensures r.None? <==> PrevDisabled(page)
    ensures r.Some? ==> r.value == page - 1
  {
    if PrevDisabled(page) then None else Some(page - 1)
  }

  /** What a click on "next" asks for: `page + 1` with no clamping, or nothing when disabled. */
  function NextRequest(page: int, totalPages: int): (r: Option<int>)
    ensures r.None? <==> NextDisabled(page, totalPages)
    ensures r.Some? ==> r.value == page + 1
  {
    if NextDisabled(page, totalPages) then None else Some(page + 1)
  }

  /**
   * The two buttons undo each other: "next" from `page` asks for the page
   * whose "previous" leads back to `page`, and the other way round inside
   * the range.
   */
  lemma PrevNextInverse(page: int, totalPages: int)
    ensures NextRequest(page, totalPages).Some? && page >= 1 ==>
      PrevRequest(NextRequest(page, totalPages).value) == Some(page)
    ensures PrevRequest(page).Some? && page <= totalPages ==>
      NextRequest(PrevRequest(page).value, totalPages) == Some(page)
  {
  }

  /**
   * From a page in [1, totalPages] every request lands in [1, totalPages]. The
   * callback does not clamp, so from a page past the end "previous" asks for
   * a page that is still past the end.
   */
  lemma RequestsInRange(page: int, totalPages: int)
    ensures 1 <= page <= totalPages ==>
      (PrevRequest(page).Some? ==> 1 <= PrevRequest(page).value <= totalPages) &&
      (NextRequest(page, totalPages).Some? ==> 1 <= NextRequest(page, totalPages).value <= totalPages)
    ensures page > totalPages + 1 && page > 1 ==> PrevRequest(page) == Some(page - 1) && page - 1 > totalPages
  {
  }
}
