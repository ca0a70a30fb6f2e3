/**
 * The browser storage behind the user list: two slots, `cachedUsers` and
 * `cachedTimestamp`, and the five-minute freshness rule applied to them.
 */
module UserCache {
  import opened Wrappers
  import opened UserView

  /** Five minutes, in milliseconds. */
  const CacheTtlMs: int := 300000

  /**
   * `cachedTimestamp && (Date.now() - parseInt(cachedTimestamp)) < 300000`:
   * a timestamp is stored and is strictly less than five minutes old.
   */
  predicate IsCacheValid(cachedTimestamp: Option<int>, now: int)
    ensures IsCacheValid(cachedTimestamp, now) ==> cachedTimestamp.Some?
    // a timestamp at or after the clock reading (a clock set back) is always fresh
    ensures cachedTimestamp.Some? && now <= cachedTimestamp.value ==> IsCacheValid(cachedTimestamp, now)
  {
    cachedTimestamp.Some? && now - cachedTimestamp.value < CacheTtlMs
  }

  /** The strict inequality: one millisecond before five minutes is fresh, five minutes is stale. */
  lemma FreshnessBoundary(written: int)
    ensures IsCacheValid(Some(written), written + CacheTtlMs - 1)
    ensures !IsCacheValid(Some(written), written + CacheTtlMs)
    ensures forall now :: !IsCacheValid(None, now)
  {
  }

  /** Freshness only decays: an entry stale at some time stays stale at every later time. */
  lemma StaleStaysStale(cachedTimestamp: Option<int>, now: int, later: int)
    requires now <= later && !IsCacheValid(cachedTimestamp, now)
    ensures !IsCacheValid(cachedTimestamp, later)
  {
  }

  /** `cachedUsers && isCacheValid`: the list can be taken from storage without a request. */
  predicate IsCacheHit(cachedUsers: Option<seq<User>>, cachedTimestamp: Option<int>, now: int)
    ensures IsCacheHit(cachedUsers, cachedTimestamp, now) ==> cachedUsers.Some? && cachedTimestamp.Some?
    ensures cachedUsers.Some? && cachedTimestamp.Some? && now <= cachedTimestamp.value ==>
              IsCacheHit(cachedUsers, cachedTimestamp, now)
  {
    cachedUsers.Some? && IsCacheValid(cachedTimestamp, now)
  }

  /**
   * What `fetch` and `response.json()` produce: a response whose body was
   * read as a user list, with its `ok` flag, or a rejection of either call.
   */
  datatype FetchOutcome = Response(ok: bool, data: seq<User>) | Failure

  /** `localStorage`, restricted to the two keys the home page uses. */
  class LocalStorage {
    var cachedUsers: Option<seq<User>>
    var cachedTimestamp: Option<int>

    /** A browser profile in which neither key has been written. */
    constructor ()
      ensures cachedUsers == None && cachedTimestamp == None
    {
      cachedUsers := None;
      cachedTimestamp := None;
    }
  }
}
