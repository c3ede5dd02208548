/**
 * The page cursor: `handlePrev` and `handleNext` step it by one, clamped to
 * `1` below and to `totalPages` above, and each button is disabled at the
 * bound it would not move past.
 */
module Paging {

  /** `Math.max(1, p - 1)`. */
  function PrevPage(p: int): (r: int)
    ensures r >= 1
    ensures p > 1 ==> r == p - 1
    ensures p <= 1 ==> r == 1
  {
    if p - 1 > 1 then p - 1 else 1
  }

  /** `Math.min(totalPages, p + 1)`. */
  function NextPage(p: int, totalPages: int): (r: int)
    ensures r <= totalPages
    ensures p < totalPages ==> r == p + 1
    ensures p >= totalPages ==> r == totalPages
  {
    if p + 1 < totalPages then p + 1 else totalPages
  }

  /** `disabled={page === 1}` on Previous. */
  predicate PrevDisabled(page: int): (r: bool)
    ensures r ==> PrevPage(page) == page
  {
    page == 1
  }

  /** `disabled={page === totalPages}` on Next. */
  predicate NextDisabled(page: int, totalPages: int): (r: bool)
    ensures r ==> NextPage(page, totalPages) == page
  {
    page == totalPages
  }

  /**
   * The controls are rendered only when there is more than one page; then
   * the first page is in range and Next is enabled on it.
   */
  predicate PaginationShown(totalPages: int): (r: bool)
    ensures r ==> InRange(1, totalPages) && !NextDisabled(1, totalPages)
  {
    totalPages > 1
  }

  predicate InRange(page: int, totalPages: int)
  {
    1 <= page <= totalPages
  }

  /** Both steps keep a page that is in range in range. */
  lemma StepsStayInRange(page: int, totalPages: int)
    requires InRange(page, totalPages)
    ensures InRange(PrevPage(page), totalPages)
    ensures InRange(NextPage(page, totalPages), totalPages)
  {
  }

  /** Within range, Previous would not move the page exactly where its button is disabled. */
  lemma PrevNoOpExactlyWhenDisabled(page: int, totalPages: int)
    requires InRange(page, totalPages)
    ensures PrevPage(page) == page <==> PrevDisabled(page)
  {
  }

  /** Within range, Next would not move the page exactly where its button is disabled. */
  lemma NextNoOpExactlyWhenDisabled(page: int, totalPages: int)
    requires InRange(page, totalPages)
    ensures NextPage(page, totalPages) == page <==> NextDisabled(page, totalPages)
  {
  }

  /** Next brings a page left beyond a smaller `totalPages` back to the last page. */
  lemma NextReturnsIntoRange(page: int, totalPages: int)
    requires 1 <= totalPages < page
    ensures NextPage(page, totalPages) == totalPages
    ensures InRange(NextPage(page, totalPages), totalPages)
  {
  }
}
