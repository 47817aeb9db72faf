/** The news refresh cache: one global slot for the latest news items, a
    30-minute freshness window, a 4-hour bound on serving stale items while a
    refresh runs, and one shared in-flight fetch.

    Every operation is a pure transition on `Cache`. The clock is the `now`
    parameter (milliseconds); one synchronous step reads one clock value.
    `getNewsWithCache` suspends at its `await`s, so it is split into events:
    `Begin` runs it up to its first await or return, the fetch body's settling
    is `Complete`, and the caller's continuation after the await is
    `ResumeJoin` (it joined a fetch already in flight) or `ResumeAwait` (it
    started the fetch and waits for it). The shared promise is an id; the
    model also records which started fetches have not settled yet
    (`outstanding`), which the source keeps only implicitly as live promises. */
module NewsCache {
  import opened Wrappers
  import opened NewsTypes

  /** Items younger than this are served without a refresh (30 minutes). */
  const CACHE_DURATION: int := 30 * 60 * 1000
  /** Items older than this are not served while a newly started refresh runs (4 hours). */
  const MAX_CACHE_AGE: int := 4 * 60 * 60 * 1000

  type FetchId = nat

  /** `entry` is the global slot, `inFlight` the shared update handle,
      `nextId` the id the next fetch gets, `outstanding` the fetches started
      and not yet settled. */
  datatype Cache = Cache(entry: Option<CacheEntry>, inFlight: Option<FetchId>, nextId: FetchId, outstanding: set<FetchId>)

  /** The state at process start. */
  const Initial: Cache := Cache(None, None, 0, {})

  /** What a fetch settles with. A rejection carries whatever was thrown. */
  datatype Thrown = ErrorObject(message: string) | NonErrorValue
  datatype FetchOutcome = Fetched(items: seq<NewsItem>) | FetchFailed(thrown: Thrown)

  /** `error instanceof Error ? error.message : 'Unknown error'`. */
  function ErrorMessage(t: Thrown): string {
    match t
    case ErrorObject(m) => m
    case NonErrorValue => "Unknown error"
  }

  /** What `getNewsWithCache` resolves to. */
  datatype Reply = Reply(news: seq<NewsItem>, status: Status, lastUpdated: Option<int>)

  /** How far a `getNewsWithCache` call got before returning or suspending. */
  datatype Step =
    | Answer(reply: Reply)                          // returned without waiting
    | Join(id: FetchId)                             // waits for the fetch already in flight
    | StartedServeStale(id: FetchId, reply: Reply)  // started fetch `id`, returned stale items at once
    | StartedAwait(id: FetchId)                     // started fetch `id` and waits for it

  predicate IsCacheValid(c: Cache, now: int) {
    c.entry.Some? && now - c.entry.value.lastUpdated < CACHE_DURATION
  }

  predicate IsCacheExpired(c: Cache, now: int) {
    c.entry.None? || now - c.entry.value.lastUpdated > MAX_CACHE_AGE
  }

  /** Both windows are strict comparisons on the entry's age, and a valid entry
      is never expired. */
  lemma ValidityWindows(c: Cache, now: int)
    ensures IsCacheValid(c, now) <==> c.entry.Some? && now - c.entry.value.lastUpdated < 30 * 60 * 1000
    ensures IsCacheExpired(c, now) <==> c.entry.None? || now - c.entry.value.lastUpdated > 4 * 60 * 60 * 1000
    ensures IsCacheValid(c, now) ==> !IsCacheExpired(c, now)
    ensures c.entry.Some? && now - c.entry.value.lastUpdated == CACHE_DURATION ==> !IsCacheValid(c, now) && !IsCacheExpired(c, now)
    ensures c.entry.Some? && now - c.entry.value.lastUpdated == MAX_CACHE_AGE ==> !IsCacheExpired(c, now)
  {
  }

  /** `getCachedNews`. */
  function CachedNews(c: Cache): Option<seq<NewsItem>> {
    if c.entry.Some? then Some(c.entry.value.news) else None
  }

  /** `getLastUpdated`. */
  function LastUpdated(c: Cache): Option<int> {
    if c.entry.Some? then Some(c.entry.value.lastUpdated) else None
  }

  /** The entry's error counts only when it is a non-empty string. */
  predicate HasError(e: CacheEntry) {
    Truthy(e.error)
  }

  /** `getCacheStatus`: no entry, then error, then updating, then freshness. */
  function GetCacheStatus(c: Cache, now: int): (s: Status)
    ensures s == Loading <==> c.entry.None?
    ensures s == Error <==> c.entry.Some? && HasError(c.entry.value)
    ensures s == Translating <==> c.entry.Some? && !HasError(c.entry.value) && c.entry.value.isUpdating
    ensures s == Cached <==> c.entry.Some? && !HasError(c.entry.value) && !c.entry.value.isUpdating && IsCacheValid(c, now)
    ensures s == Fresh <==> c.entry.Some? && !HasError(c.entry.value) && !c.entry.value.isUpdating && !IsCacheValid(c, now)
  {
    if c.entry.None? then Loading
    else if HasError(c.entry.value) then Error
    else if c.entry.value.isUpdating then Translating
    else if IsCacheValid(c, now) then Cached
    else Fresh
  }

  /** `setCacheData(news, error)` at time `now`. */
  function SetCacheData(c: Cache, news: seq<NewsItem>, error: Option<string>, now: int): (c': Cache)
    ensures c'.entry.Some?
    ensures c'.entry.value.news == news && c'.entry.value.lastUpdated == now
    ensures !c'.entry.value.isUpdating && c'.entry.value.error == error
    ensures c'.inFlight == c.inFlight && c'.nextId == c.nextId && c'.outstanding == c.outstanding
  {
    c.(entry := Some(CacheEntry(news, now, false, error)))
  }

  /** Just after `setCacheData` the status is `error` when an error was given
      and `cached` otherwise: the stored items are zero milliseconds old. */
  lemma StatusAfterSetCacheData(c: Cache, news: seq<NewsItem>, error: Option<string>, now: int)
    ensures GetCacheStatus(SetCacheData(c, news, error, now), now) == (if Truthy(error) then Error else Cached)
  {
  }

  /** `markCacheUpdating`: sets the flag on the existing entry, or creates an
      empty entry stamped at time 0 that is already updating. */
  function MarkCacheUpdating(c: Cache): (c': Cache)
    ensures c'.entry.Some? && c'.entry.value.isUpdating
    ensures c.entry.Some? ==> c'.entry.value == c.entry.value.(isUpdating := true)
    ensures c.entry.None? ==> c'.entry.value == CacheEntry([], 0, true, None)
    ensures c'.inFlight == c.inFlight && c'.nextId == c.nextId && c'.outstanding == c.outstanding
  {
    match c.entry
    case None => c.(entry := Some(CacheEntry([], 0, true, None)))
    case Some(e) => c.(entry := Some(e.(isUpdating := true)))
  }

  /** `clearCache`: drops the entry and the handle. Fetches already started keep running. */
  function ClearCache(c: Cache): (c': Cache)
    ensures c'.entry.None? && c'.inFlight.None?
    ensures c'.nextId == c.nextId && c'.outstanding == c.outstanding
  {
    c.(entry := None, inFlight := None)
  }

  /** The part of `getNewsWithCache` after "start a new update": mark the
      entry, hand out a fresh fetch id as the shared handle, and either return
      the non-expired, non-empty stale items at once or wait. */
  function StartFetch(c: Cache, now: int): (res: (Cache, Step))
    ensures res.0.entry == MarkCacheUpdating(c).entry
    ensures res.0.inFlight == Some(c.nextId) && res.0.nextId == c.nextId + 1
    ensures res.0.outstanding == c.outstanding + {c.nextId}
    ensures res.1.StartedServeStale? || res.1.StartedAwait?
    ensures res.1.id == c.nextId
    ensures res.1.StartedServeStale? <==> c.entry.Some? && !IsCacheExpired(c, now) && |c.entry.value.news| > 0
    ensures res.1.StartedServeStale? ==>
              res.1.reply == Reply(c.entry.value.news, Translating, Some(c.entry.value.lastUpdated))
  {
    var id := c.nextId;
    var m := MarkCacheUpdating(c);
    var c' := m.(inFlight := Some(id), nextId := id + 1, outstanding := m.outstanding + {id});
    if c'.entry.Some? && !IsCacheExpired(c', now) && |c'.entry.value.news| > 0 then
      (c', StartedServeStale(id, Reply(c'.entry.value.news, Translating, Some(c'.entry.value.lastUpdated))))
    else
      (c', StartedAwait(id))
  }

  /** `getNewsWithCache` up to its first return or await. */
  function Begin(c: Cache, now: int): (res: (Cache, Step))
    // a valid entry is served as `cached`, nothing else happens
    ensures IsCacheValid(c, now) ==>
              res == (c, Answer(Reply(c.entry.value.news, Cached, Some(c.entry.value.lastUpdated))))
    // an updating entry with items is served as `translating` whatever its age
    ensures !IsCacheValid(c, now) && c.entry.Some? && c.entry.value.isUpdating && |c.entry.value.news| > 0 ==>
              res == (c, Answer(Reply(c.entry.value.news, Translating, Some(c.entry.value.lastUpdated))))
    // otherwise a caller joins the fetch in flight
    ensures res.1.Join? <==>
              !IsCacheValid(c, now) && !(c.entry.Some? && c.entry.value.isUpdating && |c.entry.value.news| > 0)
              && c.inFlight.Some?
    ensures res.1.Join? ==> res.1.id == c.inFlight.value && res.0 == c
    // and a fetch starts only when none is in flight (single flight)
    ensures (res.1.StartedServeStale? || res.1.StartedAwait?) <==>
              !IsCacheValid(c, now) && !(c.entry.Some? && c.entry.value.isUpdating && |c.entry.value.news| > 0)
              && c.inFlight.None?
    ensures res.1.Answer? || res.1.Join? ==> res.0 == c
  {
    if IsCacheValid(c, now) then
      (c, Answer(Reply(c.entry.value.news, Cached, Some(c.entry.value.lastUpdated))))
    else if c.entry.Some? && c.entry.value.isUpdating && |c.entry.value.news| > 0 then
      (c, Answer(Reply(c.entry.value.news, Translating, Some(c.entry.value.lastUpdated))))
    else if c.inFlight.Some? then
      (c, Join(c.inFlight.value))
    else
      StartFetch(c, now)
  }

  /** The settling of fetch `id` (the async body in `getNewsWithCache` and
      `updateCacheAsync`): the entry gets the new items, or keeps its items
      (`[]` without an entry) and records the error; either way it is stamped
      `now`, stops updating, and the shared handle is cleared, whichever fetch
      it belongs to. */
  function Complete(c: Cache, id: FetchId, outcome: FetchOutcome, now: int): (c': Cache)
    ensures c'.entry.Some? && !c'.entry.value.isUpdating && c'.entry.value.lastUpdated == now
    ensures c'.inFlight.None?
    ensures outcome.Fetched? ==> c'.entry.value.news == outcome.items && c'.entry.value.error.None?
    ensures outcome.FetchFailed? ==>
              c'.entry.value.news == (if c.entry.Some? then c.entry.value.news else [])
              && c'.entry.value.error == Some(ErrorMessage(outcome.thrown))
    ensures c'.nextId == c.nextId && c'.outstanding == c.outstanding - {id}
  {
    var c1 := match outcome
      case Fetched(items) => SetCacheData(c, items, None, now)
      case FetchFailed(t) =>
        SetCacheData(c, if c.entry.Some? then c.entry.value.news else [], Some(ErrorMessage(t)), now);
    c1.(inFlight := None, outstanding := c.outstanding - {id})
  }

  /** A caller that joined a fetch resumes when it settles: on success it gets
      the fetched items with the cache's current status; on failure it gets the
      non-expired entry's items as `error`, and otherwise falls through to start
      a fetch of its own. */
  function ResumeJoin(c: Cache, outcome: FetchOutcome, now: int): (res: (Cache, Step))
    ensures outcome.Fetched? ==>
              res == (c, Answer(Reply(outcome.items, GetCacheStatus(c, now), LastUpdated(c))))
    ensures outcome.FetchFailed? && c.entry.Some? && !IsCacheExpired(c, now) ==>
              res == (c, Answer(Reply(c.entry.value.news, Error, Some(c.entry.value.lastUpdated))))
    ensures outcome.FetchFailed? && IsCacheExpired(c, now) ==> res == StartFetch(c, now)
  {
    match outcome
    case Fetched(items) => (c, Answer(Reply(items, GetCacheStatus(c, now), LastUpdated(c))))
    case FetchFailed(_) =>
      if c.entry.Some? && !IsCacheExpired(c, now) then
        (c, Answer(Reply(c.entry.value.news, Error, Some(c.entry.value.lastUpdated))))
      else
        StartFetch(c, now)
  }

  /** A caller that started the fetch and waited: the new items as `fresh`, or
      `[]` as `error` without a timestamp. */
  function ResumeAwait(c: Cache, outcome: FetchOutcome): (r: Reply)
    ensures outcome.Fetched? ==> r.news == outcome.items && r.status == Fresh && r.lastUpdated == LastUpdated(c)
    ensures outcome.FetchFailed? ==> r == Reply([], Error, None)
  {
    match outcome
    case Fetched(items) => Reply(items, Fresh, LastUpdated(c))
    case FetchFailed(_) => Reply([], Error, None)
  }

  /** `updateCacheAsync`: starts a background fetch unless the entry is
      updating or a fetch is in flight; yields the started fetch's id. */
  function UpdateCacheAsync(c: Cache): (res: (Cache, Option<FetchId>))
    ensures res.1.None? <==> (c.entry.Some? && c.entry.value.isUpdating) || c.inFlight.Some?
    ensures res.1.None? ==> res.0 == c
    ensures res.1.Some? ==>
              res.1.value == c.nextId && res.0.inFlight == Some(c.nextId)
              && res.0.entry == MarkCacheUpdating(c).entry
              && res.0.outstanding == c.outstanding + {c.nextId} && res.0.nextId == c.nextId + 1
  {
    if (c.entry.Some? && c.entry.value.isUpdating) || c.inFlight.Some? then (c, None)
    else
      var m := MarkCacheUpdating(c);
      (m.(inFlight := Some(c.nextId), nextId := c.nextId + 1, outstanding := c.outstanding + {c.nextId}), Some(c.nextId))
  }

  /** `forceRefreshCache` run to the end with no other caller interleaved: clear,
      start a fetch at `now`, let it settle with `outcome` at `doneAt`, and
      return the caller's items. Because the cleared slot is recreated empty,
      the caller always waits, and a failure leaves the slot empty. */
  function ForceRefreshCache(c: Cache, now: int, outcome: FetchOutcome, doneAt: int): (res: (Cache, seq<NewsItem>))
    ensures outcome.Fetched? ==> res.1 == outcome.items
    ensures outcome.FetchFailed? ==> res.1 == []
    ensures res.0.entry.Some? && res.0.entry.value.news == res.1
    ensures res.0.entry.value.lastUpdated == doneAt && !res.0.entry.value.isUpdating
    ensures res.0.inFlight.None?
  {
    var (c1, step) := Begin(ClearCache(c), now);
    assert step.StartedAwait?;
    var c2 := Complete(c1, step.id, outcome, doneAt);
    (c2, ResumeAwait(c2, outcome).news)
  }

  /** The consistency the transitions keep: the handle is set exactly when the
      entry is marked updating, the handle names a fetch that has not settled,
      and every outstanding fetch has an id below `nextId`. */
  ghost predicate Inv(c: Cache) {
    && (c.inFlight.Some? <==> c.entry.Some? && c.entry.value.isUpdating)
    && (c.inFlight.Some? ==> c.inFlight.value in c.outstanding)
    && (forall id :: id in c.outstanding ==> id < c.nextId)
  }

  /** The events that change the cache. */
  datatype Event =
    | GetNews(now: int)                                  // a `getNewsWithCache` call begins
    | Settle(id: FetchId, outcome: FetchOutcome, now: int)  // fetch `id` settles
    | Rejoin(outcome: FetchOutcome, now: int)             // a joined caller resumes
    | UpdateAsync                                         // `updateCacheAsync`
    | Clear                                               // `clearCache`

  function Apply(c: Cache, e: Event): Cache {
    match e
    case GetNews(now) => Begin(c, now).0
    case Settle(id, outcome, now) => Complete(c, id, outcome, now)
    case Rejoin(outcome, now) => ResumeJoin(c, outcome, now).0
    case UpdateAsync => UpdateCacheAsync(c).0
    case Clear => ClearCache(c)
  }

  function Run(c: Cache, events: seq<Event>): Cache
    decreases |events|
  {
    if events == [] then c else Run(Apply(c, events[0]), events[1..])
  }

  lemma {:induction false} ApplyKeepsInv(c: Cache, e: Event)
    requires Inv(c)
    ensures Inv(Apply(c, e))
  {
    match e
    case GetNews(now) =>
    case Settle(id, outcome, now) =>
    case Rejoin(outcome, now) =>
    case UpdateAsync =>
    case Clear =>
  }

  /** Every reachable state satisfies `Inv`. */
  lemma {:induction false} RunKeepsInv(c: Cache, events: seq<Event>)
    requires Inv(c)
    ensures Inv(Run(c, events))
    decreases |events|
  {
    if events != [] {
      ApplyKeepsInv(c, events[0]);
      RunKeepsInv(Apply(c, events[0]), events[1..]);
    }
  }

  lemma InitialInv()
    ensures Inv(Initial)
  {
  }

  /** How many of the calls beginning at the times `nows`, one after another
      with nothing settling in between, start a fetch. */
  function FetchesStarted(c: Cache, nows: seq<int>): nat
    decreases |nows|
  {
    if nows == [] then 0
    else
      var (c', step) := Begin(c, nows[0]);
      (if step.StartedServeStale? || step.StartedAwait? then 1 else 0) + FetchesStarted(c', nows[1..])
  }

  /** Single flight: any number of concurrent `getNewsWithCache` calls start at
      most one fetch between settlements, and none while one is in flight. */
  lemma {:induction false} ConcurrentCallsStartAtMostOneFetch(c: Cache, nows: seq<int>)
    ensures FetchesStarted(c, nows) <= 1
    ensures c.inFlight.Some? ==> FetchesStarted(c, nows) == 0
    decreases |nows|
  {
    if nows != [] {
      var (c', step) := Begin(c, nows[0]);
      ConcurrentCallsStartAtMostOneFetch(c', nows[1..]);
    }
  }

  /** Stale-while-revalidate: with items between 30 minutes and 4 hours old,
      no refresh running and no handle, the first caller starts one fetch and
      gets the old items as `translating` at once; a second caller at any
      later time gets the same items as `translating` and starts nothing. */
  lemma StaleCallersShareOneFetch(c: Cache, now: int, later: int)
    requires Inv(c) && c.entry.Some? && |c.entry.value.news| > 0 && !c.entry.value.isUpdating
    requires CACHE_DURATION <= now - c.entry.value.lastUpdated <= MAX_CACHE_AGE
    requires now <= later
    ensures var (c1, s1) := Begin(c, now);
            && s1 == StartedServeStale(c.nextId, Reply(c.entry.value.news, Translating, Some(c.entry.value.lastUpdated)))
            && Begin(c1, later) == (c1, Answer(Reply(c.entry.value.news, Translating, Some(c.entry.value.lastUpdated))))
            && c1.outstanding == c.outstanding + {c.nextId}
  {
  }

  /** Hard expiry blocks: items older than 4 hours are not served while a
      fresh fetch starts; the caller waits, and on failure gets `[]` as `error`. */
  lemma HardExpiredCallerWaits(c: Cache, now: int, outcome: FetchOutcome, doneAt: int)
    requires Inv(c) && c.entry.Some? && !c.entry.value.isUpdating
    requires now - c.entry.value.lastUpdated > MAX_CACHE_AGE
    ensures var (c1, s1) := Begin(c, now);
            && s1 == StartedAwait(c.nextId)
            && (outcome.FetchFailed? ==> ResumeAwait(Complete(c1, s1.id, outcome, doneAt), outcome) == Reply([], Error, None))
            && (outcome.Fetched? ==> ResumeAwait(Complete(c1, s1.id, outcome, doneAt), outcome) == Reply(outcome.items, Fresh, Some(doneAt)))
  {
  }

  /** A failed background refresh keeps the items that were there before it. */
  lemma FailurePreservesItems(c: Cache, id: FetchId, t: Thrown, now: int)
    requires c.entry.Some?
    ensures Complete(c, id, FetchFailed(t), now).entry.value.news == c.entry.value.news
  {
  }

  /** The freshness check applies only on the path that starts a fetch: an
      updating entry with items is served however old it is. */
  lemma UpdatingEntryServedPastHardExpiry(c: Cache, now: int)
    requires c.entry.Some? && c.entry.value.isUpdating && |c.entry.value.news| > 0
    requires now - c.entry.value.lastUpdated > MAX_CACHE_AGE
    ensures Begin(c, now).1 == Answer(Reply(c.entry.value.news, Translating, Some(c.entry.value.lastUpdated)))
  {
  }

  /** A caller that joined a successful fetch and resumes within 30 minutes of
      its settling is told `cached`, not `fresh`, because the settling already
      refreshed the entry. */
  lemma JoinedSuccessReadsCached(c: Cache, id: FetchId, items: seq<NewsItem>, doneAt: int, now: int)
    requires doneAt <= now < doneAt + CACHE_DURATION
    ensures var c1 := Complete(c, id, Fetched(items), doneAt);
            ResumeJoin(c1, Fetched(items), now).1 == Answer(Reply(items, Cached, Some(doneAt)))
  {
  }

  /** The `finally` clears the handle whichever fetch it belongs to: a fetch
      started before `clearCache` that settles after a new fetch has started
      erases the new fetch's handle and its updating mark. Thirty minutes
      later a caller then starts a third fetch while the second is still
      outstanding. */
  lemma StaleSettlementErasesNewerHandle(c: Cache, earlier: FetchId, outcome: FetchOutcome, t1: int, t2: int, t3: int)
    requires Inv(c) && c.inFlight == Some(earlier)
    requires t3 - t2 >= CACHE_DURATION
    ensures var (c1, s1) := Begin(ClearCache(c), t1);
            var c2 := Complete(c1, earlier, outcome, t2);
            var (c3, s3) := Begin(c2, t3);
            && s1 == StartedAwait(c.nextId) && s1.id != earlier
            && c2.inFlight.None? && !c2.entry.value.isUpdating && s1.id in c2.outstanding
            && (s3.StartedServeStale? || s3.StartedAwait?) && s3.id == c.nextId + 1
            && {c.nextId, c.nextId + 1} <= c3.outstanding
  {
  }
}
