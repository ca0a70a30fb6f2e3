/**
 * The home page component: its state, the mount effect that loads the user
 * list through the cache, the search box setter and the pagination clicks.
 */
module Dashboard {
  import opened Wrappers
  import opened UserView
  import opened UserCache
  import Pagination

  class Home {
    var users: seq<User>
    var searchQuery: string
    var currentPage: int
    var isLoading: bool
    /** The browser storage, which outlives the component. */
    const storage: LocalStorage

    /** Every way the page changes keeps it at 1 or above. */
    ghost predicate Valid()
      reads this
    {
      currentPage >= 1
    }

    /** The initial `useState` values: no users, empty query, page 1, loading. */
    constructor (storage: LocalStorage)
      ensures Valid() && this.storage == storage
      ensures users == [] && searchQuery == "" && currentPage == 1 && isLoading
    {
      this.storage := storage;
      users := [];
      searchQuery := "";
      currentPage := 1;
      isLoading := true;
    }

    /** The `filteredUsers` memo. */
    function Filtered(): (r: seq<User>)
      reads this
      ensures |r| <= |users|
      ensures forall u :: u in r ==> u in users
    {
      FilteredUsers(users, searchQuery)
    }

    /** The `currentUsers` memo: the cards shown. */
    function Current(): (r: seq<User>)
      reads this
      ensures currentPage >= 1 ==> |r| <= UsersPerPage
      ensures forall u :: u in r ==> u in Filtered()
    {
      CurrentUsers(Filtered(), currentPage)
    }

    /** The number of page buttons the pagination control computes from `filteredUsers.length`. */
    function PageCount(): (count: nat)
      reads this
      ensures |Filtered()| <= count * UsersPerPage
      ensures Filtered() != [] ==> count >= 1
    {
      Pagination.PageCount(|Filtered()|, UsersPerPage)
    }

    /**
     * The mount effect `fetchUsers`. `checkTime` and `storeTime` are the two
     * readings of the clock (before and after the request); `outcome` is what
     * the request produced if one is made; `requested` says whether it was.
     * A response counts as success whatever its `ok` flag.
     */
    method FetchUsers(checkTime: int, storeTime: int, outcome: FetchOutcome) returns (requested: bool)
      modifies this, storage
      ensures !isLoading
      ensures searchQuery == old(searchQuery) && currentPage == old(currentPage)
      ensures requested <==> !old(IsCacheHit(storage.cachedUsers, storage.cachedTimestamp, checkTime))
      // fresh hit: the stored list, storage untouched
      ensures !requested ==> users == old(storage.cachedUsers.value) && unchanged(storage)
      // success: write-through to both slots
      ensures requested && outcome.Response? ==>
                users == outcome.data &&
                storage.cachedUsers == Some(outcome.data) && storage.cachedTimestamp == Some(storeTime)
      // failure: the stored list whatever its age, else the previous list; storage untouched
      ensures requested && outcome.Failure? ==>
                unchanged(storage) &&
                users == (if old(storage.cachedUsers).Some? then old(storage.cachedUsers.value) else old(users))
    {
      isLoading := true;
      var cachedUsers := storage.cachedUsers;
      var cachedTimestamp := storage.cachedTimestamp;
      var isCacheValid := IsCacheValid(cachedTimestamp, checkTime);
      if cachedUsers.Some? && isCacheValid {
        users := cachedUsers.value;
        requested := false;
      } else {
        requested := true;
        match outcome
        case Response(_, data) =>
          users := data;
          storage.cachedUsers := Some(data);
          storage.cachedTimestamp := Some(storeTime);
        case Failure =>
          var fallback := storage.cachedUsers;
          if fallback.Some? {
            users := fallback.value;
          }
      }
      isLoading := false;
    }

    /** `setSearchQuery`, as the search box calls it: the page is left as it was. */
    method SetSearchQuery(query: string)
      modifies this`searchQuery
      ensures searchQuery == query && currentPage == old(currentPage)
    {
      searchQuery := query;
    }

    /** `paginate`: sets the page without any check of its own. */
    method Paginate(pageNumber: int)
      modifies this`currentPage
      ensures currentPage == pageNumber
    {
      currentPage := pageNumber;
    }

    /** The previous button, which exists only once the list has loaded and spans two pages or more. */
    method ClickPrev()
      requires Valid() && !isLoading && !Pagination.IsHidden(PageCount())
      modifies this`currentPage
      ensures Valid()
      ensures currentPage == if old(currentPage) > 1 then old(currentPage) - 1 else old(currentPage)
      ensures old(currentPage) <= PageCount() ==> currentPage <= PageCount()
    {
      match Pagination.PrevTarget(currentPage)
      case Some(target) => Paginate(target);
      case None =>
    }

    /** The next button. */
    method ClickNext()
      requires Valid() && !isLoading && !Pagination.IsHidden(PageCount())
      modifies this`currentPage
      ensures Valid()
      ensures currentPage ==
              if old(currentPage) < PageCount() then old(currentPage) + 1 else old(currentPage)
      ensures old(currentPage) <= PageCount() ==> currentPage <= PageCount()
    {
      match Pagination.NextTarget(currentPage, PageCount())
      case Some(target) => Paginate(target);
      case None =>
    }

    /** The button of one page number, taken from the rendered `pageNumbers`. */
    method ClickNumber(number: int)
      requires !isLoading && !Pagination.IsHidden(PageCount())
      requires number in Pagination.PageRange(PageCount())
      modifies this`currentPage
      ensures Valid() && 1 <= currentPage <= PageCount() && currentPage == number
    {
      Paginate(number);
    }

    /**
     * A search setter that also returns to page 1: with it, a search with
     * matches always shows some of them and stays within the page buttons.
     */
    method SetSearchQueryAndResetPage(query: string)
      modifies this`searchQuery, this`currentPage
      ensures searchQuery == query && currentPage == 1 && Valid()
      ensures Filtered() != [] ==> Current() != [] && currentPage <= PageCount()
    {
      searchQuery := query;
      currentPage := 1;
      FirstPageShowsMatches(Filtered());
    }
  }

  /** Page 1 of a non-empty list shows its first users and is among the page buttons. */
  lemma FirstPageShowsMatches(filtered: seq<User>)
    ensures filtered != [] ==>
              CurrentUsers(filtered, 1) != [] && 1 <= Pagination.PageCount(|filtered|, UsersPerPage)
  {
  }

  /**
   * The page is not reset when the query changes. On page 2 of the full list,
   * a query with between one and six matches leaves the page past the last
   * one: no card is shown although users match, and the pagination control,
   * with a single page, is hidden, so no button leads back.
   */
  lemma NarrowedSearchStrandsPage(users: seq<User>, query: string)
    requires |users| > UsersPerPage
    requires 1 <= |FilteredUsers(users, query)| <= UsersPerPage
    ensures !Pagination.IsHidden(Pagination.PageCount(|FilteredUsers(users, "")|, UsersPerPage))
    ensures CurrentUsers(FilteredUsers(users, query), 2) == []
    ensures Pagination.IsHidden(Pagination.PageCount(|FilteredUsers(users, query)|, UsersPerPage))
  {
  }

  /**
   * The stranded page through the component itself: mount on a fresh cache
   * of more than six users, click next, then type a query with one to six
   * matches. Users match, no card is shown, and the control is hidden.
   */
  method StrandedAfterNarrowing(storage: LocalStorage, now: int, query: string) returns (h: Home)
    requires IsCacheHit(storage.cachedUsers, storage.cachedTimestamp, now)
    requires |storage.cachedUsers.value| > UsersPerPage
    requires 1 <= |FilteredUsers(storage.cachedUsers.value, query)| <= UsersPerPage
    modifies storage
    ensures h.currentPage == 2 && h.searchQuery == query
    ensures h.Filtered() != [] && h.Current() == [] && Pagination.IsHidden(h.PageCount())
  {
    h := new Home(storage);
    var requested := h.FetchUsers(now, now, Failure);
    Pagination.HiddenIff(|h.users|, UsersPerPage);
    h.ClickNext();
    h.SetSearchQuery(query);
    NarrowedSearchStrandsPage(h.users, query);
  }

  /** Seven users, one named "a" and six named "b", searched for "a": page 2 shows nothing. */
  lemma StrandedExample(users: seq<User>)
    requires |users| == 7 && users[0].name == "a" && users[0].email == ""
    requires forall k :: 1 <= k < 7 ==> users[k].name == "b" && users[k].email == ""
    ensures FilteredUsers(users, "a") == [users[0]]
    ensures CurrentUsers(FilteredUsers(users, "a"), 2) == []
    ensures Pagination.IsHidden(Pagination.PageCount(|FilteredUsers(users, "a")|, UsersPerPage))
  {
    var q := Text.Lower("a");
    assert q == "a";
    assert Matches(users[0], "a") by {
      Text.ContainsInfix("", q, "");
      assert "" + q + "" == Text.Lower(users[0].name);
    }
    forall k | 1 <= k < 7
      ensures !Matches(users[k], "a")
    {
      Text.NotContainsFirstChar(Text.Lower(users[k].name), q);
      Text.NotContainsFirstChar(Text.Lower(users[k].email), q);
    }
    RestDoNotMatch(users[1..], "a");
    assert users == [users[0]] + users[1..];
    NarrowedSearchStrandsPage(users, "a");
  }

  /** A list none of whose users match filters to nothing. */
  lemma {:induction false} RestDoNotMatch(users: seq<User>, query: string)
    requires forall k :: 0 <= k < |users| ==> !Matches(users[k], query)
    ensures FilterMatching(users, query) == []
  {
    if users != [] {
      RestDoNotMatch(users[1..], query);
    }
  }

  /**
   * Write-through followed by a remount: what a successful request stored is
   * served, without a request, to a page mounted again within five minutes.
   */
  method RemountWithinTtl(storage: LocalStorage, data: seq<User>, checkTime: int, storeTime: int, remountTime: int)
      returns (first: Home, second: Home, firstRequested: bool, secondRequested: bool)
    requires !IsCacheHit(storage.cachedUsers, storage.cachedTimestamp, checkTime)
    requires remountTime - storeTime < CacheTtlMs
    modifies storage
    ensures firstRequested && !secondRequested
    ensures first.users == data && second.users == data
  {
    first := new Home(storage);
    firstRequested := first.FetchUsers(checkTime, storeTime, Response(true, data));
    second := new Home(storage);
    secondRequested := second.FetchUsers(remountTime, remountTime, Failure);
  }
}
