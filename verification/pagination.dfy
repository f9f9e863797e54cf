/**
 * The pagination bar: how many pages the result count spans, when the bar is shown, the
 * Prev/Next moves with their disabled flags, and the row of numbered page buttons.
 */
module Pagination {
  import opened Wrappers

  /** Results per upstream page. */
  const PageSize: nat := 10

  /** `Math.ceil(totalResults / 10)`: the fewest pages of ten that hold every result. */
  function TotalPages(totalResults: nat): (r: nat)
    ensures r == 0 <==> totalResults == 0
    ensures r > 0 ==> (r - 1) * PageSize < totalResults <= r * PageSize
  {
    (totalResults + PageSize - 1) / PageSize
  }

  /** The ceiling is unique: any page count that fits the results this tightly is `TotalPages`. */
  lemma TotalPagesIsCeiling(totalResults: nat, n: nat)
    requires n > 0 && (n - 1) * PageSize < totalResults <= n * PageSize
    ensures n == TotalPages(totalResults)
  {
  }

  /** The bar is rendered only when there is more than one page. */
  predicate BarShown(totalPages: nat) {
    totalPages > 1
  }

  /** Prev: `Math.max(page - 1, 1)`. */
  function PrevPage(page: int): (r: int)
    ensures r >= 1
    ensures page > 1 ==> r == page - 1
    ensures page <= 1 ==> r == 1
  {
    if page - 1 > 1 then page - 1 else 1
  }

  /** Prev is disabled on page 1. */
  predicate PrevDisabled(page: int) {
    page == 1
  }

  /** Next: `Math.min(page + 1, totalPages)`. */
  function NextPage(page: int, totalPages: nat): (r: int)
    ensures r <= totalPages
    ensures page < totalPages ==> r == page + 1
    ensures page >= totalPages ==> r == totalPages
  {
    if page + 1 < totalPages then page + 1 else totalPages
  }

  /** Next is disabled on the last page. */
  predicate NextDisabled(page: int, totalPages: nat) {
    page == totalPages
  }

  /** On a page in range, Prev leaves the page unchanged exactly when it is disabled, and otherwise
      steps back one page while staying in range. */
  lemma PrevStaysInRange(page: int, totalPages: nat)
    requires 1 <= page <= totalPages
    ensures PrevPage(page) == page <==> PrevDisabled(page)
    ensures 1 <= PrevPage(page) <= totalPages
  {
  }

  /** On a page in range, Next leaves the page unchanged exactly when it is disabled, and otherwise
      steps forward one page while staying in range. */
  lemma NextStaysInRange(page: int, totalPages: nat)
    requires 1 <= page <= totalPages
    ensures NextPage(page, totalPages) == page <==> NextDisabled(page, totalPages)
    ensures 1 <= NextPage(page, totalPages) <= totalPages
  {
  }

  /** One numbered button: its page number and whether it is highlighted as the current page. */
  datatype PageButton = PageButton(number: int, active: bool)

  /** `[...Array(totalPages)].map((_, i) => …)`: buttons numbered 1..totalPages in order, the one
      whose number equals the current page marked active. */
  function PageButtons(totalPages: nat, page: int): (r: seq<PageButton>)
    ensures |r| == totalPages
    ensures forall i :: 0 <= i < |r| ==> r[i].number == i + 1
    ensures forall i :: 0 <= i < |r| ==> (r[i].active <==> r[i].number == page)
  {
    if totalPages == 0 then []
    else PageButtons(totalPages - 1, page) + [PageButton(totalPages, totalPages == page)]
  }

  /** How many buttons in a row are marked active. */
  function ActiveCount(buttons: seq<PageButton>): nat {
    if buttons == [] then 0
    else ActiveCount(buttons[..|buttons| - 1]) + (if buttons[|buttons| - 1].active then 1 else 0)
  }

  /** Exactly one button is active when the page is in range, and none otherwise. */
  lemma {:induction false} ExactlyOneActive(totalPages: nat, page: int)
    ensures ActiveCount(PageButtons(totalPages, page)) == (if 1 <= page <= totalPages then 1 else 0)
  {
    if totalPages > 0 {
      var bs := PageButtons(totalPages, page);
      assert bs[..|bs| - 1] == PageButtons(totalPages - 1, page);
      ExactlyOneActive(totalPages - 1, page);
    }
  }

  /** The rendered bar: Prev with its disabled flag, the page buttons, Next with its disabled flag. */
  datatype Bar = Bar(prevDisabled: bool, buttons: seq<PageButton>, nextDisabled: bool)

  /** The bar for a result count and current page, present only when there is more than one page. */
  function PaginationBar(totalResults: nat, page: int): (r: Option<Bar>)
    ensures r.Some? <==> TotalPages(totalResults) > 1
    ensures r.Some? ==> |r.value.buttons| == TotalPages(totalResults)
    ensures r.Some? ==> (r.value.prevDisabled <==> page == 1)
    ensures r.Some? ==> (r.value.nextDisabled <==> page == TotalPages(totalResults))
    ensures r.Some? ==> forall i :: 0 <= i < |r.value.buttons| ==>
              r.value.buttons[i].number == i + 1 && (r.value.buttons[i].active <==> i + 1 == page)
  {
    var totalPages := TotalPages(totalResults);
    if BarShown(totalPages) then
      Some(Bar(PrevDisabled(page), PageButtons(totalPages, page), NextDisabled(page, totalPages)))
    else
      None
  }
}
