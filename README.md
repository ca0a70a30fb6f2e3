# User dashboard: cache, search filter and pagination

A Dafny model of the one piece of logic in a small client-rendered user dashboard. On mount, the home
page loads the user collection through a five-minute cache kept in two browser-storage slots
(`cachedUsers`, `cachedTimestamp`). It falls back to the stored list when the network request fails.
It derives what to show from that list with a case-insensitive search on name or e-mail and a
1-based page slice of six cards. A pagination control shows the page buttons.

Modules, one per concern:

- `Wrappers` (`wrappers.dfy`): `Option`, used for the storage slots and for the click guards.
- `Text` (`text.dfy`): `toLowerCase` (ASCII) and `includes` (substring containment).
- `UserView` (`user_view.dfy`): the `User` record, the `filteredUsers` and `currentUsers` memos of
  `src/app/page.tsx` as pure functions, and JavaScript's `Array.prototype.slice` index rules.
- `Pagination` (`pagination.dfy`): `src/components/Pagination.tsx`. The `pageNumbers` loop is a
  method with a `while` loop. The hide rule, click guards, disabled flags and highlight are pure
  functions.
- `UserCache` (`user_cache.dfy`): the 300000 ms freshness rule, and `LocalStorage`, a class with
  the two slots.
- `Dashboard` (`dashboard.dfy`): `Home`, a class with the component state (`users`, `searchQuery`,
  `currentPage`, `isLoading`) and the mount effect `fetchUsers` as the method `FetchUsers`, which
  reads and writes the storage object. It also has the search setter and the pagination clicks.

Boundaries:

- Both readings of `Date.now()` are parameters of `FetchUsers`. There are two of them, `checkTime`
  for the freshness test and `storeTime` for the stored timestamp, because an `await` separates them.
- The request is a parameter `outcome: FetchOutcome`:
  - `Response(ok, data)` means `fetch` resolved and `response.json()` produced a user list.
  - `Failure` means either call rejected.
- `JSON.stringify`/`JSON.parse` are the identity on `seq<User>`.

Two behaviours of the code show up directly in the contracts:

- `response.ok` is never checked. `FetchUsers` treats a `Response` with `ok == false` exactly like
  a successful one: it shows it and writes it to both slots.
- `setSearchQuery` leaves `currentPage` as it was. This can leave the page past the last one
  (see Findings).

A failed request with nothing stored has no separate "no data" result: it leaves `users` as it
was (initially the empty list). Stored data that cannot be parsed is not a cache miss: the code
throws from inside the `catch` block.

## Model

| member | source | states |
|---|---|---|
| Text.Lower | src/app/page.tsx:69-70 | lower-casing keeps the length and maps each character by the ASCII case mapping |
| Text.Contains | src/app/page.tsx:69-70 | `includes`: a needle longer than the string is never contained, and a prefix always is (see also ContainsEmpty, ContainsInfix) |
| Text.ContainsEmpty | src/app/page.tsx:69-70 | every string `includes` the empty string |
| Text.ContainsInfix | src/app/page.tsx:69-70 | a string placed between a prefix and a suffix is `includes`-contained in the whole |
| Text.NotContainsFirstChar | src/app/page.tsx:69-70 | a needle whose first character occurs at no possible start offset is not contained |
| UserView.Matches | src/app/page.tsx:69-70 | the search test: the empty query matches every user, and a query longer than both the name and the e-mail matches none |
| UserView.FilterMatching | src/app/page.tsx:68-71 | the filter never grows the list; a user is kept iff it is in the list and its lower-cased name or e-mail contains the lower-cased query |
| UserView.FilteredUsers | src/app/page.tsx:65-72 | an empty query returns `users` itself; otherwise membership is exactly "in `users` and matching" |
| UserView.FilterAppend | src/app/page.tsx:68-71 | filtering distributes over concatenation, so the kept users stay in their original order |
| UserView.FilterMultiplicity | src/app/page.tsx:68-71 | each matching user is kept as many times as it occurs, and a non-matching one never: no match is dropped |
| UserView.EmptyQueryKeepsAll | src/app/page.tsx:66-71 | the empty-query shortcut agrees with the filter, since every user matches "" |
| UserView.FilterExample | src/app/page.tsx:68-71 | query "howell" on Leanne Graham / Ervin Howell keeps exactly Ervin Howell (case-insensitive substring on the name) |
| UserView.NegativeIndicesShift | src/app/page.tsx:78 | a negative `slice` index counts back from the end: indices in -length..-1 slice as the same indices shifted up by the length |
| UserView.JsSlice | src/app/page.tsx:78 | `slice` never yields more than the list, and only elements of it; with 0 <= start <= end it is the part from start to end, clipped to the length |
| UserView.CurrentUsers | src/app/page.tsx:23-79 | for page p >= 1: at most 6 cards; empty when (p-1)*6 >= the filtered length; otherwise exactly filtered[(p-1)*6 .. min(p*6, length)] |
| UserView.PagesUpToPrefix | src/app/page.tsx:75-79 | pages 1..n together are the first min(6n, length) filtered users, in order |
| UserView.PagesCoverAll | src/app/page.tsx:75-79 | once 6n covers the list, pages 1..n show every filtered user exactly once, in order |
| UserView.NonPositivePages | src/app/page.tsx:76-78 | what the slice would give below page 1 (page 0 empty; page -1 the six cards before the last six); the home page never reaches these pages, since it keeps the page >= 1 |
| Pagination.PageCount | src/components/Pagination.tsx:13 | `ceil(total / perPage)`: the count of pages holds every user, and one page fewer would not |
| Pagination.PageRange | src/components/Pagination.tsx:11-15 | the list 1..n, ascending, of length n |
| Pagination.PageNumbers | src/components/Pagination.tsx:11-15 | the loop yields exactly [1, ..., ceil(total / perPage)] |
| Pagination.IsHidden | src/components/Pagination.tsx:17 | `pageNumbers.length <= 1`: hidden iff the page list 1..count has at most one entry (see HiddenIff) |
| Pagination.HiddenIff | src/components/Pagination.tsx:17 | the control renders nothing iff there are at most as many users as fit on one page, i.e. ceil(total/perPage) <= 1 |
| Pagination.PrevTarget | src/components/Pagination.tsx:23 | a prev click, when it calls `paginate`, passes a page >= 1 below the current one; from page 2 or higher it always calls |
| Pagination.NextTarget | src/components/Pagination.tsx:47 | a next click, when it calls `paginate`, passes a page above the current one and at most the count; below the count it always calls |
| Pagination.PrevDisabled | src/components/Pagination.tsx:24 | a disabled prev button (page 1) is one whose click would do nothing (see DisabledIffNoMove, OutOfRangeControls) |
| Pagination.NextDisabled | src/components/Pagination.tsx:48 | a disabled next button (page == count) is one whose click would do nothing (see DisabledIffNoMove, OutOfRangeControls) |
| Pagination.HighlightCount | src/components/Pagination.tsx:32-40 | counts the buttons with `currentPage === number`: at most one per button, and none when the page is not among them (see HighlightExactlyOne) |
| Pagination.ClicksStayInRange | src/components/Pagination.tsx:22-48 | from a page in 1..count, prev and next only move to pages in 1..count |
| Pagination.DisabledIffNoMove | src/components/Pagination.tsx:22-48 | on an in-range page, prev is disabled iff its guard blocks (page 1), and next iff its guard blocks (page count) |
| Pagination.OutOfRangeControls | src/components/Pagination.tsx:22-48 | past the last page both buttons stay enabled; next does nothing; prev moves back one, which is still out of range unless the page was count + 1 |
| Pagination.HighlightExactlyOne | src/components/Pagination.tsx:32-44 | exactly one page button is highlighted when 1 <= page <= count, none otherwise |
| UserCache.IsCacheValid | src/app/page.tsx:33-34 | fresh only with a stored timestamp; a timestamp at or after the clock reading is always fresh (see FreshnessBoundary, StaleStaysStale) |
| UserCache.IsCacheHit | src/app/page.tsx:36 | a hit needs both slots stored; both stored with a timestamp not in the past is a hit (see Home.FetchUsers) |
| UserCache.FreshnessBoundary | src/app/page.tsx:33-34 | an entry 299999 ms old is fresh, one exactly 300000 ms old is stale, and no stored timestamp is never fresh |
| UserCache.StaleStaysStale | src/app/page.tsx:34 | an entry stale at some time is stale at every later time |
| UserCache.LocalStorage.constructor | src/app/page.tsx:32-33 | a profile where neither key has been written: both slots read as absent |
| Dashboard.Home.constructor | src/app/page.tsx:19-22 | initial state: no users, empty query, page 1, loading |
| Dashboard.Home.Filtered | src/app/page.tsx:65-72 | the `filteredUsers` memo: never longer than `users` and holding only its users (see FilteredUsers) |
| Dashboard.Home.Current | src/app/page.tsx:75-79 | the `currentUsers` memo: at most 6 cards on any page >= 1, all from the filtered list (see CurrentUsers) |
| Dashboard.Home.PageCount | src/app/page.tsx:122-127 | the page count the control derives from `filteredUsers.length`: enough pages for every filtered user, and at least one for a non-empty list |
| Dashboard.Home.FetchUsers | src/app/page.tsx:26-62 | not loading on return on every path. Fresh hit: cached list shown, no request, storage untouched. Request success: `users == data` and both slots written with `data` and the store time, whatever `ok` is. Request failure: stored list shown whatever its age, else previous `users` kept; storage untouched. Query and page unchanged |
| Dashboard.Home.SetSearchQuery | src/app/page.tsx:102 | the query is replaced and the page is left as it was |
| Dashboard.Home.Paginate | src/app/page.tsx:81 | the page is set to the argument, unchecked |
| Dashboard.Home.ClickPrev | src/components/Pagination.tsx:22-24 | the page drops by one only if above 1; the page stays >= 1 and an in-range page stays in range |
| Dashboard.Home.ClickNext | src/components/Pagination.tsx:46-48 | the page rises by one only if below the count; an in-range page stays in range |
| Dashboard.Home.ClickNumber | src/components/Pagination.tsx:32-35 | a number button sets the page to its number, which is in 1..count |
| Dashboard.Home.SetSearchQueryAndResetPage | src/app/page.tsx:20-21 | corrected setter that resets to page 1: a search with matches shows some of them, and the page is among the buttons |
| Dashboard.FirstPageShowsMatches | src/app/page.tsx:75-79 | page 1 of a non-empty filtered list is non-empty and is a real page |
| Dashboard.NarrowedSearchStrandsPage | src/app/page.tsx:20-21 | from page 2 of more than 6 users, a query with 1..6 matches shows no card, and the pagination control is hidden |
| Dashboard.StrandedAfterNarrowing | src/app/page.tsx:20-21 | through the component: mount on a fresh cache of more than 6 users, click next, type a query with 1..6 matches: users match, no card is shown, the control is hidden |
| Dashboard.StrandedExample | src/app/page.tsx:20-21 | seven users, one named "a": searching "a" on page 2 shows nothing and hides the control |
| Dashboard.RemountWithinTtl | src/app/page.tsx:32-47 | a successful request writes through, and a page mounted within five minutes of the write is served that list without a request |

## Findings

| source | as written | input that shows it | evidently intended | confidence | as-written member | corrected member |
|---|---|---|---|---|---|---|
| src/app/page.tsx:20-21 | `setSearchQuery` does not reset `currentPage` | seven users on page 2, then a query matched by one user: the card list is empty and the pagination control, with one page, is hidden | a new query returns to page 1 | not executed; high that it happens, medium that it is unintended | Dashboard.StrandedAfterNarrowing | Dashboard.Home.SetSearchQueryAndResetPage |

## Left out

- Text.Lower: ASCII case mapping only. JavaScript's Unicode `toLowerCase` is not modelled.
- JSON serialisation is the identity on user lists. Stored text that does not parse throws inside
  the `catch` block in the code and is not modelled.
- The timestamp slot holds an integer. A stored text that `parseInt` reads as NaN makes the
  freshness test false, which is the same as an absent slot in the model. Partial parses such as
  "123abc" are not modelled.
- A response body that is JSON but not a user list can't be represented. `FetchOutcome` carries
  only lists or a rejection.
- `localStorage.setItem` failures (quota) are not modelled. The model assumes both writes succeed.
- `console.error` is not modelled, because it is output only.
- React runtime behaviour is not modelled: render scheduling, batching of state updates, `useMemo`
  caching, and the effect firing once. The memos are pure functions of their inputs, and the
  loading state is observed only after `FetchUsers` returns.
- The in-flight period of the request is not modelled: an unmount, or a second fetch racing the
  first, is outside a single `FetchUsers` call.
- `Math.ceil` over floating-point division is modelled as exact integer ceiling division. Page
  size 0 is excluded by `requires`, because the only caller passes 6.
- The click methods require that the control is rendered (loaded, more than one page). Without
  that, the buttons do not exist.
- The user detail page and its per-user cache keys are not part of this model.
- Markup-only components are not part of this model: the card tilt and parallax, the 3D background
  elements, the search box, the footer, the layout, and the empty-list message.
