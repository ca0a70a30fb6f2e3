/**
 * The pagination control: the list of page numbers, the rule that hides the
 * control, and the guards, disabled flags and highlight of its buttons.
 */
module Pagination {
  import opened Wrappers

  /** `Math.ceil(totalUsers / usersPerPage)`: the fewest pages of that size that hold every user. */
  function PageCount(totalUsers: nat, usersPerPage: nat): (count: nat)
    requires usersPerPage > 0
    ensures totalUsers <= count * usersPerPage
    ensures count > 0 ==> (count - 1) * usersPerPage < totalUsers
  {
    var n := totalUsers + usersPerPage - 1;
    var q, m := n / usersPerPage, n % usersPerPage;
    assert n == q * usersPerPage + m && 0 <= m < usersPerPage;
    assert (q - 1) * usersPerPage == q * usersPerPage - usersPerPage;
    q
  }

  /** The page numbers 1, 2, ..., n. */
  function PageRange(n: nat): (r: seq<int>)
    ensures |r| == n
    ensures forall k :: 0 <= k < n ==> r[k] == k + 1
  {
    if n == 0 then [] else PageRange(n - 1) + [n]
  }

  /** The loop that pushes 1..ceil(totalUsers / usersPerPage) into `pageNumbers`. */
  method PageNumbers(totalUsers: nat, usersPerPage: nat) returns (pageNumbers: seq<int>)
    requires usersPerPage > 0
    ensures |pageNumbers| == PageCount(totalUsers, usersPerPage)
    ensures forall k :: 0 <= k < |pageNumbers| ==> pageNumbers[k] == k + 1
  {
    pageNumbers := [];
    var i := 1;
    while i <= PageCount(totalUsers, usersPerPage)
      invariant 1 <= i <= PageCount(totalUsers, usersPerPage) + 1
      invariant |pageNumbers| == i - 1
      invariant forall k :: 0 <= k < |pageNumbers| ==> pageNumbers[k] == k + 1
    {
      pageNumbers := pageNumbers + [i];
      i := i + 1;
    }
  }

  /** The control renders nothing when there is at most one page. */
  predicate IsHidden(pageCount: nat)
    ensures IsHidden(pageCount) <==> |PageRange(pageCount)| <= 1
  {
    pageCount <= 1
  }

  /** The control is hidden exactly when every user fits on the first page. */
  lemma HiddenIff(totalUsers: nat, usersPerPage: nat)
    requires usersPerPage > 0
    ensures IsHidden(PageCount(totalUsers, usersPerPage)) <==> totalUsers <= usersPerPage
  {
  }

  /** The previous button: `currentPage > 1 && paginate(currentPage - 1)`; None means no call. */
  function PrevTarget(currentPage: int): (r: Option<int>)
    ensures r.Some? ==> 1 <= r.value < currentPage
    ensures currentPage >= 2 ==> r.Some?
  {
    if currentPage > 1 then Some(currentPage - 1) else None
  }

  /** The next button: `currentPage < pageNumbers.length && paginate(currentPage + 1)`. */
  function NextTarget(currentPage: int, pageCount: nat): (r: Option<int>)
    ensures r.Some? ==> currentPage < r.value <= pageCount
    ensures currentPage < pageCount ==> r.Some?
  {
    if currentPage < pageCount then Some(currentPage + 1) else None
  }

  /** `disabled={currentPage === 1}` on the previous button. */
  predicate PrevDisabled(currentPage: int)
    ensures PrevDisabled(currentPage) ==> PrevTarget(currentPage).None?
  {
    currentPage == 1
  }

  /** `disabled={currentPage === pageNumbers.length}` on the next button. */
  predicate NextDisabled(currentPage: int, pageCount: nat)
    ensures NextDisabled(currentPage, pageCount) ==> NextTarget(currentPage, pageCount).None?
  {
    currentPage == pageCount
  }

  /**
   * How many of the given buttons are drawn as the current page, a button
   * being highlighted when `currentPage === number`.
   */
  function HighlightCount(numbers: seq<int>, currentPage: int): (r: nat)
    ensures r <= |numbers|
    ensures currentPage !in numbers ==> r == 0
  {
    if numbers == [] then 0
    else HighlightCount(numbers[..|numbers| - 1], currentPage)
         + (if currentPage == numbers[|numbers| - 1] then 1 else 0)
  }

  /** From a page in 1..pageCount, the previous and next buttons only move within 1..pageCount. */
  lemma ClicksStayInRange(currentPage: int, pageCount: nat)
    requires 1 <= currentPage <= pageCount
    ensures PrevTarget(currentPage).Some? ==> 1 <= PrevTarget(currentPage).value <= pageCount
    ensures NextTarget(currentPage, pageCount).Some? ==>
              1 <= NextTarget(currentPage, pageCount).value <= pageCount
  {
  }

  /** On an in-range page, a button is disabled exactly when its click would do nothing. */
  lemma DisabledIffNoMove(currentPage: int, pageCount: nat)
    requires 1 <= currentPage <= pageCount
    ensures PrevDisabled(currentPage) <==> PrevTarget(currentPage).None?
    ensures NextDisabled(currentPage, pageCount) <==> NextTarget(currentPage, pageCount).None?
  {
  }

  /**
   * Past the last page both buttons stay enabled, since the flags test
   * equality: next then does nothing, and previous steps back by one page,
   * which is still out of range unless the current page was count + 1.
   */
  lemma OutOfRangeControls(currentPage: int, pageCount: nat)
    requires pageCount >= 2 && currentPage > pageCount
    ensures !PrevDisabled(currentPage) && !NextDisabled(currentPage, pageCount)
    ensures NextTarget(currentPage, pageCount) == None
    ensures PrevTarget(currentPage) == Some(currentPage - 1)
    ensures currentPage > pageCount + 1 ==> PrevTarget(currentPage).value > pageCount
  {
  }

  /** Exactly one page button is highlighted on an in-range page, and none otherwise. */
  lemma {:induction false} HighlightExactlyOne(pageCount: nat, currentPage: int)
    ensures HighlightCount(PageRange(pageCount), currentPage) ==
            if 1 <= currentPage <= pageCount then 1 else 0
  {
    if pageCount > 0 {
      var r := PageRange(pageCount);
      assert r[..|r| - 1] == PageRange(pageCount - 1);
      HighlightExactlyOne(pageCount - 1, currentPage);
    }
  }
}
