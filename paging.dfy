/**
  The Prev and Next buttons under the table. A button is disabled by a
  predicate on the current page counters; an enabled one requests the
  neighbouring page.
 */
module Paging {
  import opened Wrappers

  /** `disabled={currentpage === 1}` on Prev. */
  predicate PrevDisabled(currentPage: int) {
    currentPage == 1
  }

  /** `disabled={currentpage === totalpages}` on Next. */
  predicate NextDisabled(currentPage: int, totalPages: int) {
    currentPage == totalPages
  }

  /** The page a click on Prev asks for: none while the button is disabled. */
  function PrevTarget(currentPage: int): (r: Option<int>)
    ensures r == None <==> currentPage == 1
    ensures r.Some? ==> r.value == currentPage - 1
  {
    if PrevDisabled(currentPage) then None else Some(currentPage - 1)
  }

  /** The page a click on Next asks for: none while the button is disabled. */
  function NextTarget(currentPage: int, totalPages: int): (r: Option<int>)
    ensures r == None <==> currentPage == totalPages
    ensures r.Some? ==> r.value == currentPage + 1
  {
    if NextDisabled(currentPage, totalPages) then None else Some(currentPage + 1)
  }

  /**
    While the counters the server reported satisfy 1 <= current <= total,
    neither button can ask for a page outside 1..total.
   */
  lemma NavigationStaysInRange(currentPage: int, totalPages: int)
    requires 1 <= currentPage <= totalPages
    ensures PrevTarget(currentPage).Some? ==> 1 <= PrevTarget(currentPage).value <= totalPages
    ensures NextTarget(currentPage, totalPages).Some? ==> 1 <= NextTarget(currentPage, totalPages).value <= totalPages
  {
  }
}
