# Business news pipeline — a Dafny model

This project models the core of a business-news dashboard written in
TypeScript. It covers five parts:

- **Tweet feed** (`TweetsService`). Tweet records scanned from a table are
  validated, cleaned, sorted newest first, cut to a limit and turned into news
  items.
- **BBC business scraper** (`NewsScraper`). The scraper goes through a list of
  card selectors in priority order. It extracts at most ten headlines, falls
  back to plain links when no selector matches anything, drops repeated titles
  and links, and sorts by date. It also covers `validateNewsItem` and
  `cleanNewsItem`.
- **Headline translator** (`NewsTranslator`). Headlines go to a language model
  in batches of three. Each reply is read into one translation per headline,
  with placeholder and failure-marker texts where the reply is unusable. Every
  headline comes out in its original position, with an untranslated
  `[英文]` fallback wherever the model fails. `fillMissingTranslations` merges
  new translations into existing items by link.
- **News refresh cache** (`NewsCache`). This is a single global slot with a
  30-minute freshness window and a 4-hour limit on serving stale items. At
  most one fetch is in flight at a time, and callers share it.
  `getNewsWithCache` suspends at its `await`s, so it is modelled as separate
  events:
  - `Begin`: from the call to its first return or await;
  - `Complete`: the shared fetch settles;
  - `ResumeJoin` and `ResumeAwait`: the caller's continuation after the await.

  Arbitrary interleavings are sequences of `Event`s.
- **News item view and timezone lookup** (`NewsItemView`, `TimezoneHelper`).
  The pure closures of the news card:
  - the title and content to show for the chosen language;
  - the relative-time text ("3小时前");
  - `$TICKER` / `#hashtag` extraction;
  - the link and badge conditions;
  - the symbol-to-exchange-timezone lookup.

Shared modules:

- `Text` covers ECMAScript `trim`, `replace(/\s+/g, ' ')`, `startsWith`,
  `includes`, `substring` and decimal rendering, on strings as sequences of
  characters.
- `Seqs` covers `slice`, `findIndex`, `filter`, a descending sort by an
  optional timestamp, and `[...new Set]`.
- `NewsTypes` holds the records.
- `Wrappers` holds `Option` and `Result`.

Everything the code reads from outside is a parameter:

- the clock (`now`, `stamp`, `nowIso`);
- `new Date(s).getTime()`, as `parse: string -> Option<int>`, with `None` for
  `NaN`;
- the table scan (`ScanResult`);
- the parsed page (`Page`, the cards each selector matches, in document order);
- the model's replies (`replies: nat -> BatchReply`, already decoded from JSON);
- whether the model client could be created (`clientFails`);
- URL validity (`isUrl`);
- the date formatter (`render`).

## Model

| member | source | states |
|---|---|---|
| NewsCache.ValidityWindows | src/lib/news-cache.ts:4-5 | The entry is valid while younger than 30 minutes and expired when older than 4 hours, both by strict comparison. A valid entry is never expired, and an entry exactly 30 minutes or 4 hours old is neither. |
| NewsCache.GetCacheStatus | src/lib/news-cache.ts:42-48 | The status is `loading` exactly when there is no entry. Otherwise it is `error` exactly when an error is recorded, then `translating` exactly when a refresh is marked, then `cached` or `fresh` according to the 30-minute window. The five statuses partition the states. |
| NewsCache.SetCacheData | src/lib/news-cache.ts:53-70 | The slot afterwards holds exactly the given items and error, stamped with the current time, and is not updating. The shared handle is untouched. |
| NewsCache.StatusAfterSetCacheData | src/lib/news-cache.ts:42-70 | Right after storing, the status is `error` if a non-empty error was given and `cached` otherwise. |
| NewsCache.MarkCacheUpdating | src/lib/news-cache.ts:75-85 | Marks an existing entry as updating with nothing else changed, or creates an empty entry stamped 0 that is already updating. |
| NewsCache.ClearCache | src/lib/news-cache.ts:90-94 | Drops both the entry and the shared handle. Fetches already started stay outstanding. |
| NewsCache.StartFetch | src/lib/news-cache.ts:155-185 | Marks the entry, hands out a fresh fetch id as the shared handle and records it as outstanding. It returns the stale items as `translating` exactly when an entry with items exists that is not past 4 hours; otherwise the caller waits. |
| NewsCache.Begin | src/lib/news-cache.ts:107-185 | A valid entry is served as `cached`, and an updating entry with items as `translating`, with the state unchanged. Otherwise the caller joins exactly when a fetch is in flight, and starts one exactly when none is. |
| NewsCache.Complete | src/lib/news-cache.ts:159-171 | A settled fetch stamps the entry and clears the updating mark and the shared handle, whichever fetch the handle names. On success it stores the fetched items with no error. On failure it keeps the old items (`[]` without an entry) and records the error's message or "Unknown error". |
| NewsCache.UpdateCacheAsync | src/lib/news-cache.ts:207-234 | A background refresh is skipped, with nothing changed, exactly when the entry is updating or a fetch is in flight. Otherwise it starts a fetch with a fresh id and marks the entry. |
| NewsCache.ForceRefreshCache | src/lib/news-cache.ts:239-244 | After clearing, the caller always waits for its own fetch. It returns the fetched items, or `[]` on failure, and the slot then holds exactly those items with no refresh running. |
| NewsCache.ApplyKeepsInv | src/lib/news-cache.ts:8-11 | Every event keeps the consistency of the global state. The handle is set exactly when the entry is marked updating, the handle names an unsettled fetch, and all ids are below the next id. |
| NewsCache.RunKeepsInv | src/lib/news-cache.ts:8-11 | Every state reachable by any interleaving of calls, settlements, background refreshes and clears keeps that consistency. |
| NewsCache.InitialInv | src/lib/news-cache.ts:8-11 | The empty start state is consistent. |
| NewsCache.ConcurrentCallsStartAtMostOneFetch | src/lib/news-cache.ts:132-171 | Any number of calls arriving before a settlement start at most one fetch, and none while a fetch is already in flight. |
| NewsCache.StaleCallersShareOneFetch | src/lib/news-cache.ts:122-130 | With items between 30 minutes and 4 hours old, the first caller starts one fetch and gets the old items as `translating`. A later caller gets the same items and starts nothing. |
| NewsCache.HardExpiredCallerWaits | src/lib/news-cache.ts:173-201 | Items older than 4 hours are not served. The caller waits for the new fetch and gets its items as `fresh`, or `[]` as `error`. |
| NewsCache.FailurePreservesItems | src/lib/news-cache.ts:164-167 | A failed refresh keeps the items that were cached before it. |
| NewsCache.UpdatingEntryServedPastHardExpiry | src/lib/news-cache.ts:123-130 | An updating entry with items is served as `translating` even past the 4-hour limit, because the age check exists only on the path that starts a fetch. |
| NewsCache.JoinedSuccessReadsCached | src/lib/news-cache.ts:136-141 | A caller that joined a successful fetch and resumes within 30 minutes is told `cached`, because the settlement already refreshed the entry. |
| NewsCache.StaleSettlementErasesNewerHandle | src/lib/news-cache.ts:168-170 | A fetch started before `clearCache` that settles later erases the newer fetch's handle and updating mark. A caller 30 minutes on then starts a third fetch while the second is still outstanding. |
| TweetsService.ValidateTweetDataMeaning | src/lib/tweets-service.ts:57-83 | A record is accepted exactly when its date field is set, its content is a string of at least 10 characters after trimming, and its date parses. |
| TweetsService.CleanTweetData | src/lib/tweets-service.ts:88-94 | Cleaning succeeds exactly when date and content are strings and the link is a string or absent. Otherwise `trim` throws. |
| TweetsService.CleanTweetDataMeaning | src/lib/tweets-service.ts:88-94 | A cleaned tweet has a trimmed date. Its content has no whitespace at the ends, holds whitespace only as single spaces between visible characters, and keeps the visible characters of the original in order. It has a link exactly when the record's link is non-blank, and then that link trimmed. |
| TweetsService.SelectTweets | src/lib/tweets-service.ts:33-43 | Fails exactly when some valid record cannot be cleaned. On success the output is sorted newest first and has `min(limit, number of valid records)` elements, each the cleaning of a valid record. It is a sub-bag of the cleaned valid records, and every cleaned record left out is no newer than any kept one. |
| TweetsService.FetchLatestTweets | src/lib/tweets-service.ts:28-51 | No client is the unguarded error, and a failed scan or clean is "Failed to fetch tweets". A response with no items gives `[]`, and otherwise the selected tweets. |
| TweetsService.TweetTitle | src/lib/tweets-service.ts:101-105 | The title is at most 53 characters and contains no newline. `...` is appended exactly when the content is longer than 50 characters. What it is appended to, or the whole title otherwise, is the first 50 characters with newlines turned into spaces, then trimmed. |
| TweetsService.ConvertTweetsToNewsItems | src/lib/tweets-service.ts:99-122 | One item per tweet in the same order. Each carries the tweet's content, link and date unchanged, no translation, the business category, the tweets source, an id from its date and position, and the title above. |
| TweetsService.FetchLatestNews | src/lib/tweets-service.ts:127-139 | Fails exactly when fetching the tweets fails. Otherwise it gives one news item per fetched tweet, never more than the limit. |
| NewsScraper.AbsoluteHref | src/lib/news-scraper.ts:72-74 | A root-relative link gets the BBC origin in front and any other link is kept. The result never starts with `/`. |
| NewsScraper.AbsoluteHrefIdempotent | src/lib/news-scraper.ts:72-74 | Making a link absolute twice is the same as once. |
| NewsScraper.AbsoluteImageUrl | src/lib/news-scraper.ts:82-89 | A protocol-relative image gets `https:`, a root-relative one the BBC origin, and others are kept. The result never starts with `/`. |
| NewsScraper.ProtocolRelativeImageKeepsHost | src/lib/news-scraper.ts:85-86 | `//host/path` becomes `https://host/path`. |
| NewsScraper.CardImage | src/lib/news-scraper.ts:82-89 | A non-empty `src` is used, else a non-empty `data-src`, made absolute; with neither the card has no image. An image is never empty and never root- or protocol-relative. |
| NewsScraper.CardDate | src/lib/news-scraper.ts:92-98 | The `datetime` attribute when non-empty, else the trimmed time text when non-empty, else the current time. |
| NewsScraper.ExtractCardMeaning | src/lib/news-scraper.ts:60-108 | A card yields a headline exactly when its title (trimmed heading, else aria-label, else title attribute) is longer than 10 characters and its link is non-empty. The headline's title is that title cut to 200 characters, and its link the absolute link. Its summary is the trimmed text of the card's first summary element cut to 500 characters, or the full title when that is empty. Its date and image are the card's. |
| NewsScraper.ScanMeaning | src/lib/news-scraper.ts:100-120 | A scan of one selector's cards, or of the fallback links, appends to what was held exactly the first headlines its elements yield, in document order, as many as fit under ten. |
| NewsScraper.ScanSelectorsMeaning | src/lib/news-scraper.ts:47-126 | The page counts as matched exactly when some selector matched an element. The loop returns the first ten headlines of the first selector whose cards yield any, and nothing exactly when no selector's cards yield a headline. |
| NewsScraper.FallbackItem | src/lib/news-scraper.ts:141-157 | A fallback link gives a headline whose title and summary are the link text, with 20 < length < 200. Its absolute link still contains `/news/` or `/business/`, it has no image, and its date is now. |
| NewsScraper.AbsoluteHrefKeepsSection | src/lib/news-scraper.ts:141-148 | Prefixing the origin keeps the `/news/` or `/business/` part the filter checked. |
| NewsScraper.ScrapeMeaning | src/lib/news-scraper.ts:47-164 | When some selector matched, the collected headlines are the first ten of the first selector whose cards yield any, and none when no selector's cards do. When no selector matched anything, they are the first ten of the links that pass the fallback filter (text of 21..199 characters, `/news/` or `/business/` in the link, no `#` and no `mailto:`), in document order. Every collected headline has a title of 11..200 characters, a link and a summary. |
| NewsScraper.KeptByFindIndexIff | src/lib/news-scraper.ts:167-173 | The `findIndex(...) === index` filter keeps exactly the headlines that share neither title nor link with any earlier one. |
| NewsScraper.Dedup | src/lib/news-scraper.ts:167-173 | No two kept headlines share a title or a link. Every kept headline is a first occurrence, and every first occurrence is kept. |
| NewsScraper.SelectNewest | src/lib/news-scraper.ts:167-179 | The result has `min(10, number of de-duplicated headlines)` elements, newest first, with no two sharing a title or link. It is a sub-bag of the de-duplicated headlines, and every one left out is no newer than any kept one. Every kept headline is a first occurrence in the input. |
| NewsScraper.FetchBbcBusinessNews | src/lib/news-scraper.ts:13-190 | A parsed page gives exactly the newest ten distinct headlines of what the page scan collected: at most ten, newest first, without repeated titles or links, each collected. No page gives the error path. |
| NewsScraper.ValidateNewsItemMeaning | src/lib/news-scraper.ts:231-259 | An item is accepted exactly when its link and date are non-empty, its title has 10..300 characters, its link is a URL, and its date parses. |
| NewsScraper.ScrapedTitlesPassLengthCheck | src/lib/news-scraper.ts:234-241 | Every scraped headline has a non-empty title and link and a title of 10..300 characters. Its date is non-empty whenever the current time is, so it passes all three field checks and the title-length check of validation. |
| NewsScraper.CleanNewsItemMeaning | src/lib/news-scraper.ts:264-271 | A cleaned item's title and summary have no whitespace at the ends and hold whitespace only as single spaces. Each keeps its visible characters in order, and an empty summary becomes the cleaned title. The link and image are trimmed, and the date is unchanged. |
| NewsScraper.CleanTextIdempotent | src/lib/news-scraper.ts:266-267 | Trimming and collapsing whitespace twice is the same as once, and the result is empty exactly when the trimmed text is. |
| NewsScraper.CleanNewsItemIdempotent | src/lib/news-scraper.ts:264-271 | Cleaning a cleaned item changes nothing, unless its summary was non-empty but blank. |
| NewsScraper.BlankSummaryCleansToEmpty | src/lib/news-scraper.ts:267 | A blank but non-empty summary is not replaced by the title. It cleans to an empty summary, and only a second cleaning fills in the title. |
| NewsTranslator.ParseTranslationResponse | src/lib/news-translator.ts:131-169 | A reply that is not JSON or has no `translations` array gives one placeholder per headline. Otherwise the first `expectedCount` entries are read in order, with placeholders again if one of them is `null`. Never more translations than headlines, and no empty text. |
| NewsTranslator.WellFormedReplyIsUsedVerbatim | src/lib/news-translator.ts:146-154 | A reply with a complete entry for every headline is read as exactly those translations. |
| NewsTranslator.TranslateItem | src/lib/news-translator.ts:74-88 | A translated headline keeps the English fields and position. It uses the translation's texts where present and the English ones where not. |
| NewsTranslator.CreateFallbackNewsItem | src/lib/news-translator.ts:174-186 | The fallback keeps the English fields and position and shows the English texts marked `[英文]`. |
| NewsTranslator.BatchAt | src/lib/news-translator.ts:21-22 | The batch at `i` is the next one to three headlines from position `i`. |
| NewsTranslator.BatchOutputCorresponds | src/lib/news-translator.ts:21-38 | Whether the model answers or fails, each output of a batch corresponds to its headline at its position. |
| NewsTranslator.TranslateNewsWithGemini | src/lib/news-translator.ts:7-50 | One output per headline, in the original order. Each keeps the headline's English fields and its position in the id and has both Chinese fields. A failure to set up the model gives the fallback for every headline. |
| NewsTranslator.FailingBatchesMatchWholeFallback | src/lib/news-translator.ts:32-48 | When every batch fails, the batch loop from any batch boundary gives exactly the whole-run fallback from that position. |
| NewsTranslator.AllBatchesFailingIsWholeFallback | src/lib/news-translator.ts:32-48 | A model that fails on every batch gives the same result as a model that cannot be created. |
| NewsTranslator.AnsweredBatchUsesTranslation | src/lib/news-translator.ts:74-88 | Within an answered batch, headline `off` gets translation `off`. |
| NewsTranslator.AnsweredHeadlineIsTranslated | src/lib/news-translator.ts:20-39 | Headline `3a + off` of the whole run gets exactly the translation at `off` of the reply to the batch starting at `3a`. |
| NewsTranslator.HeadlineFromItsBatch | src/lib/news-translator.ts:20-39 | Headline `3a + off` of the whole run is output `off` of the batch that starts at `3a`. |
| NewsTranslator.FailedBatchFallsBack | src/lib/news-translator.ts:32-38 | A headline whose batch the model failed on comes out as its `[英文]` fallback at its own position, whatever happened to other batches. |
| NewsTranslator.ShortReplyKeepsEnglish | src/lib/news-translator.ts:74-88 | A headline beyond the end of its batch's reply gets its English title and summary as its Chinese texts. |
| NewsTranslator.TranslateSingleNews | src/lib/news-translator.ts:191-202 | A single headline comes back as its translated item at position 0. |
| NewsTranslator.FindByUrl | src/lib/news-translator.ts:256 | Finds the first translated item with the given link, or reports that none has it. |
| NewsTranslator.MergeItem | src/lib/news-translator.ts:254-266 | An item with both translations is kept. One lacking a translation takes both Chinese fields of the first match by link, if any. Nothing but the Chinese fields changes. |
| NewsTranslator.NeedingItemsAreFound | src/lib/news-translator.ts:243-256 | Every item that lacked a translation finds its translated counterpart by link. |
| NewsTranslator.FillMissingTranslations | src/lib/news-translator.ts:227-273 | Items that are all translated come back unchanged. Otherwise every item keeps its position and all but its Chinese fields, translated items stay as they are, and every item ends up with both Chinese fields. |
| NewsTranslator.FilledItemTakesTranslation | src/lib/news-translator.ts:243-266 | An item that lacked a translation takes both Chinese fields of the translated run at the position of the first item sent for translation with its link. |
| NewsItemView.ToggleSwitchesTitleAndContent | src/components/news-item.tsx:90-99 | When the toggle is shown, choosing Chinese shows both Chinese texts and choosing English shows both English ones. |
| NewsItemView.HasLinkIffVisible | src/components/news-item.tsx:74 | An item shows a link exactly when its link has a non-whitespace character. |
| NewsItemView.AgoMeaning | src/components/news-item.tsx:30-46 | Each bucket covers exactly its elapsed times: under a minute is "just now". `m` minutes covers `[m, m+1)` minutes for m < 60, and likewise hours below a day and days. |
| NewsItemView.AgoMonotone | src/components/news-item.tsx:34-46 | A later clock reading never moves an item to an earlier bucket. |
| NewsItemView.AgoTextReadsBack | src/components/news-item.tsx:39-45 | The digits before the unit read back as the bucket's count. |
| NewsItemView.ScanMatchesAreMatches | src/components/news-item.tsx:57-63 | Every regex match is the sigil followed by one to the maximum number of characters of its class. |
| NewsItemView.ScanMatchesOccur | src/components/news-item.tsx:57-63 | Every regex match occurs in the content at or after the scan start. |
| NewsItemView.ExtractTags | src/components/news-item.tsx:53-69 | At most five tags and no repeats. A tag is in the list exactly when it is among the first three tickers or the first two hashtags. |
| NewsItemView.ExtractTagsShape | src/components/news-item.tsx:53-69 | The tags are the distinct tickers followed by the distinct hashtags. Each is a `$` with 1-5 capitals or a `#` word that occurs in the content. |
| TimezoneHelper.FirstPrefixMatch | src/lib/timezone-helper.ts:20-25 | Gives the timezone of the first table entry whose prefix starts the symbol, or nothing exactly when no prefix matches. |
| TimezoneHelper.GetTimezoneForSymbolMeaning | src/lib/timezone-helper.ts:4-25 | `MES…` symbols are in Chicago time, `N225MC…` symbols in Tokyo time, all others in UTC. |
| TimezoneHelper.PrefixesAreExclusive | src/lib/timezone-helper.ts:4-9 | No symbol starts with both prefixes, so the table's order never decides. |
| Text.TrimMeaning | src/lib/tweets-service.ts:90 | The trimmed text sits inside the input with only whitespace before and after it, and has no whitespace at either end. |
| Text.TrimIdempotent | src/lib/tweets-service.ts:90 | Trimming twice is the same as once. |
| Text.CollapseRun | src/lib/tweets-service.ts:91 | A whitespace run between visible characters becomes one space in place: the text before and the text after are collapsed on their own. |
| Text.CollapseAppend | src/lib/tweets-service.ts:91 | Collapsing distributes over a split after a visible character. |
| Text.CollapseIsCollapsed | src/lib/tweets-service.ts:91 | The collapsed text holds whitespace only as single spaces. |
| Text.CollapseKeepsVisible | src/lib/tweets-service.ts:91 | Collapsing keeps the visible characters in order. |
| Text.CollapseKeepsEnds | src/lib/tweets-service.ts:91 | The collapsed text starts and ends with whitespace exactly when the input does. |
| Text.CollapseIdempotent | src/lib/tweets-service.ts:91 | Collapsing twice is the same as once. |
| Text.NatToStringRoundTrip | src/components/news-item.tsx:39-45 | A number's decimal rendering reads back as that number. |
| Seqs.FindIndex | src/lib/news-scraper.ts:169-171 | Gives -1 exactly when nothing matches, otherwise the first matching position. |
| Seqs.SortDesc | src/lib/tweets-service.ts:37-42 | A permutation of its input ordered newest first, with undated elements last. |
| Seqs.Distinct | src/components/news-item.tsx:68 | The same elements without repeats. |
| Seqs.DistinctKeepsFirstOrder | src/components/news-item.tsx:68 | The distinct elements appear in the order of their first occurrences. |
| Seqs.DistinctOfDisjointAppend | src/components/news-item.tsx:68 | Removing repeats from two lists with no common element removes them from each separately. |
| Seqs.FilterMapSortSlice | src/lib/tweets-service.ts:34-43 | Filtering, cleaning, sorting and slicing fails exactly when a kept element cannot be cleaned. Otherwise it gives sorted results, each the cleaning of a kept element, with the sliced count. The results are a sub-bag of the cleaned kept elements, and every cleaned element left out is no newer than any result. |
| Seqs.SliceOfSortedIsNewest | src/lib/tweets-service.ts:37-43 | A prefix of a newest-first list is a sub-bag of it, and everything cut off is no newer than anything kept. |

## Left out

- Network access, HTML parsing and cheerio selectors. The page is given as the
  cards each selector matches, with their attribute and text values.
- The model's API, the prompt text, JSON parsing and code-fence stripping.
  Replies are given already decoded. Non-string `titleChinese` and
  `summaryChinese` values are not modelled: an entry field is a string or
  absent.
- The one-second delay between batches, the DynamoDB client, and logging.
  These have no effect on results.
- The clock. `Date.now()` and `new Date().toISOString()` are parameters. The
  translator reads the clock once per item; the model uses one `stamp` for a
  whole run. The scraper reads it once per dateless card
  (`src/lib/news-scraper.ts:97`) and once per fallback link (`:154`); the
  model uses one `nowIso` for a whole page.
- A `fetchFunction` that throws synchronously. The model takes every fetch
  function to return a promise. One that throws before returning one would run the `catch` and
  `finally` of `src/lib/news-cache.ts:159-171` before `updatePromise` is
  assigned, leaving a rejected handle set while no refresh is marked; the
  model has no such event.
- FillMissingTranslations: items use the translator's output shape (`summary`
  and `summaryChinese`, a required `url`). The source declares them as the
  dashboard's `NewsItem` (`content` and `contentChinese`, an optional `url`),
  on which `!item.summaryChinese` is always true and `item.summary` is
  undefined; the model cannot express that mismatch and follows the
  translator's shape.
- CleanTweetDataMeaning and CleanNewsItemMeaning state the shape of each
  cleaned field. That each whitespace run of the trimmed field becomes one
  space in place is stated about `Collapse` itself, by Text.CollapseRun and
  Text.CollapseAppend, which cover every field the cleaning collapses.
- `Intl.DateTimeFormat` rendering in `formatDateTimeInBeijing`. It is the
  `render` parameter, and its format options are not modelled.
- `getMockBBCNews` and `getMockTweetNews`: fixed sample data. The scraper's
  error path is `None`.
- `validateGeminiApiKey`: a call to the model with no logic of its own.
- The per-card `try/catch` in the scraper. Reading attributes from a parsed
  card cannot throw in the model.
- `catch` branches no input reaches:
  - `formatTime`'s "时间未知": an invalid date gives `NaN天前`, not an
    exception;
  - `translateSingleNews`'s fallback;
  - `fillMissingTranslations`' return of the input.
- NewsTranslator.TranslateNewsWithGemini: the fallback position of a failed
  batch uses `batch.indexOf(item)`, which finds the first identical object.
  The model uses the item's own position, which agrees whenever the batch does
  not hold the same object twice.
- String lengths. The source counts UTF-16 code units and the model counts
  characters, so a title containing astral-plane characters is measured
  differently.
- Sort order under `NaN`. Where the source's comparator gets `NaN`, the
  resulting order depends on the engine. The model sorts undated items after
  all dated ones and does not claim stability.
- React rendering, styling and event wiring of the news card. Only the values
  the card computes are modelled.
- Behaviours of the code worth noting, all modelled as written:
  - a joined caller whose fetch succeeded gets the cache's current status
    (usually `cached`), not `fresh`;
  - a joined caller whose fetch failed with an expired or missing entry starts
    a new fetch rather than failing;
  - an updating entry with items is served past the 4-hour limit;
  - a fetch's `finally` clears the shared handle even when it belongs to a
    newer fetch.
