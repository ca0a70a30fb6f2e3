/**
 * The list data of the home page and the two derivations computed from it:
 * the search filter and the slice shown on the current page.
 */
module UserView {
  import opened Text

  /** One record of the user collection. */
  datatype User = User(id: int, name: string, email: string, phone: string, website: string)

  /** Cards shown per page. */
  const UsersPerPage: nat := 6

  /** The search test: the lower-cased query occurs in the lower-cased name or email. */
  predicate Matches(u: User, query: string)
    ensures query == "" ==> Matches(u, query)
    ensures Matches(u, query) ==> |query| <= |u.name| || |query| <= |u.email|
  {
    ContainsEmpty(Lower(u.name));
    Contains(Lower(u.name), Lower(query)) || Contains(Lower(u.email), Lower(query))
  }

  /** `users.filter(user => Matches(user, query))`: the matching users, in their original order. */
  function FilterMatching(users: seq<User>, query: string): (r: seq<User>)
    ensures |r| <= |users|
    ensures forall u :: u in r <==> u in users && Matches(u, query)
  {
    if users == [] then []
    else (if Matches(users[0], query) then [users[0]] else []) + FilterMatching(users[1..], query)
  }

  /** The filtered list: all users when the query is empty, otherwise the matching ones. */
  function FilteredUsers(users: seq<User>, query: string): (r: seq<User>)
    ensures query == "" ==> r == users
    ensures forall u :: u in r <==> u in users && (query == "" || Matches(u, query))
  {
    if query == "" then users else FilterMatching(users, query)
  }

  /** Filtering distributes over concatenation: it keeps the relative order of users. */
  lemma {:induction false} FilterAppend(a: seq<User>, b: seq<User>, query: string)
    ensures FilterMatching(a + b, query) == FilterMatching(a, query) + FilterMatching(b, query)
  {
    if a == [] {
      assert a + b == b;
    } else {
      var head := if Matches(a[0], query) then [a[0]] else [];
      assert (a + b)[0] == a[0];
      assert (a + b)[1..] == a[1..] + b;
      assert FilterMatching(a + b, query) == head + FilterMatching(a[1..] + b, query);
      FilterAppend(a[1..], b, query);
      assert head + (FilterMatching(a[1..], query) + FilterMatching(b, query))
          == (head + FilterMatching(a[1..], query)) + FilterMatching(b, query);
    }
  }

  /**
   * No matching user is dropped and no other is kept, counting duplicates:
   * each user occurs in the result as often as in the input if it matches,
   * and not at all otherwise.
   */
  lemma {:induction false} FilterMultiplicity(users: seq<User>, query: string, u: User)
    ensures multiset(FilterMatching(users, query))[u] ==
            if Matches(u, query) then multiset(users)[u] else 0
  {
    if users != [] {
      FilterMultiplicity(users[1..], query, u);
      assert users == [users[0]] + users[1..];
    }
  }

  /** The empty-query shortcut agrees with the filter itself: every user matches "". */
  lemma {:induction false} EmptyQueryKeepsAll(users: seq<User>)
    ensures FilterMatching(users, "") == users
  {
    if users != [] {
      ContainsEmpty(Lower(users[0].name));
      EmptyQueryKeepsAll(users[1..]);
    }
  }

  /** Lower-case search on a name: "howell" picks Ervin Howell and not Leanne Graham. */
  lemma FilterExample(leanne: User, ervin: User)
    requires leanne == User(1, "Leanne Graham", "Sincere@april.biz", "", "")
    requires ervin == User(2, "Ervin Howell", "Shanna@melissa.tv", "", "")
    ensures FilterMatching([leanne, ervin], "howell") == [ervin]
  {
    LeanneDoesNotMatch(leanne);
    ErvinMatches(ervin);
    FilterPair(leanne, ervin, "howell");
  }

  lemma FilterPair(a: User, b: User, query: string)
    requires !Matches(a, query) && Matches(b, query)
    ensures FilterMatching([a, b], query) == [b]
  {
  }

  lemma LowerQuery()
    ensures Lower("howell") == "howell"
  {
  }

  lemma LeanneDoesNotMatch(leanne: User)
    requires leanne.name == "Leanne Graham" && leanne.email == "Sincere@april.biz"
    ensures !Matches(leanne, "howell")
  {
    LowerQuery();
    var name, email := Lower(leanne.name), Lower(leanne.email);
    assert forall i :: 0 <= i <= |name| - 6 ==> name[i] == LowerChar(leanne.name[i]) != 'h';
    assert forall i :: 0 <= i <= |email| - 6 ==> email[i] == LowerChar(leanne.email[i]) != 'h';
    NotContainsFirstChar(name, "howell");
    NotContainsFirstChar(email, "howell");
  }

  lemma ErvinMatches(ervin: User)
    requires ervin.name == "Ervin Howell"
    ensures Matches(ervin, "howell")
  {
    LowerQuery();
    var name := Lower(ervin.name);
    assert name[6..] == "howell";
    assert name == name[..6] + "howell" + "";
    ContainsInfix(name[..6], "howell", "");
  }

  /** How `Array.prototype.slice` turns a relative index into a position in 0..len. */
  function SliceIndex(rel: int, len: nat): (k: nat)
    ensures k <= len
  {
    if rel < 0 then (if len + rel < 0 then 0 else len + rel)
    else if rel > len then len
    else rel
  }

  /** `s.slice(start, end)`, including the counting from the end for negative indices. */
  function JsSlice<T>(s: seq<T>, start: int, end: int): (r: seq<T>)
    ensures |r| <= |s|
    ensures forall x :: x in r ==> x in s
    ensures 0 <= start <= end ==>
              r == if start < |s| then s[start..if end < |s| then end else |s|] else []
  {
    var from, to := SliceIndex(start, |s|), SliceIndex(end, |s|);
    if from < to then s[from..to] else []
  }

  /**
   * A negative index counts back from the end: slicing with indices in
   * -|s|..-1 is slicing with the same indices shifted up by |s|.
   */
  lemma NegativeIndicesShift<T>(s: seq<T>, start: int, end: int)
    requires -|s| <= start < 0 && -|s| <= end < 0
    ensures JsSlice(s, start, end) == JsSlice(s, start + |s|, end + |s|)
    ensures start <= end ==> JsSlice(s, start, end) == s[start + |s|..end + |s|]
  {
  }

  /** The cards on 1-based page `page`, computed as the source does from the last index. */
  function CurrentUsers(filtered: seq<User>, page: int): (r: seq<User>)
    ensures page >= 1 ==> |r| <= UsersPerPage
    ensures page >= 1 && (page - 1) * UsersPerPage >= |filtered| ==> r == []
    ensures page >= 1 && (page - 1) * UsersPerPage < |filtered| ==>
              r == filtered[(page - 1) * UsersPerPage..Min(page * UsersPerPage, |filtered|)]
  {
    var indexOfLastUser := page * UsersPerPage;
    var indexOfFirstUser := indexOfLastUser - UsersPerPage;
    JsSlice(filtered, indexOfFirstUser, indexOfLastUser)
  }

  function Min(a: int, b: int): int { if a < b then a else b }

  /** The cards of pages 1..n, one page after the other. */
  function PagesUpTo(filtered: seq<User>, n: nat): seq<User>
  {
    if n == 0 then [] else PagesUpTo(filtered, n - 1) + CurrentUsers(filtered, n)
  }

  /** Pages 1..n together show exactly the first n * 6 filtered users, in order. */
  lemma {:induction false} PagesUpToPrefix(filtered: seq<User>, n: nat)
    ensures PagesUpTo(filtered, n) == filtered[..Min(n * UsersPerPage, |filtered|)]
  {
    if n > 0 {
      PagesUpToPrefix(filtered, n - 1);
      var lo := Min((n - 1) * UsersPerPage, |filtered|);
      var hi := Min(n * UsersPerPage, |filtered|);
      assert filtered[..hi] == filtered[..lo] + filtered[lo..hi];
    }
  }

  /**
   * The pages partition the filtered list: once n pages hold every user
   * (n * 6 >= the list's length), pages 1..n show each user once, in order.
   */
  lemma PagesCoverAll(filtered: seq<User>, n: nat)
    requires n * UsersPerPage >= |filtered|
    ensures PagesUpTo(filtered, n) == filtered
  {
    PagesUpToPrefix(filtered, n);
    assert filtered[..|filtered|] == filtered;
  }

  /**
   * What the slice would do on pages below 1, where JavaScript's negative
   * indices show: page 0 is empty, page -1 the six cards before the last six.
   * The home page never reaches these pages: it starts on page 1 and every
   * click keeps the page at 1 or above (`Dashboard.Home.Valid`).
   */
  lemma NonPositivePages(filtered: seq<User>)
    ensures CurrentUsers(filtered, 0) == []
    ensures |filtered| >= 12 ==>
              CurrentUsers(filtered, -1) == filtered[|filtered| - 12..|filtered| - 6]
  {
  }
}
