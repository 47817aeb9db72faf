/** The records the news pipeline passes around. */
module NewsTypes {
  import opened Wrappers

  /** Item ids. The source builds them as strings from a clock reading and a
      position (`tweet-<time>-<i>`, `bbc-<now>-<i>`, `bbc-fallback-<now>-<i>`);
      the model keeps the parts instead of the rendered string. A tweet's time
      is `None` where its date does not parse (the string then reads `NaN`). */
  datatype ItemId =
    | TweetId(time: Option<int>, index: nat)
    | BbcId(stamp: int, index: nat)
    | BbcFallbackId(stamp: int, index: nat)

  /** A news item as the feed and the cache carry it. Optional strings are
      `None` for `undefined`. */
  datatype NewsItem = NewsItem(
    id: ItemId,
    title: string,
    titleChinese: Option<string>,
    content: string,
    contentChinese: Option<string>,
    url: Option<string>,
    publishedAt: string,
    category: Option<string>,
    source: string)

  /** A tweet record after cleaning. */
  datatype TweetRaw = TweetRaw(createdAt: string, content: string, originalLinks: Option<string>)

  /** A scraped headline before translation (title, summary, link, date, image). */
  datatype RawNews = RawNews(title: string, summary: string, url: string, publishedAt: string, imageUrl: Option<string>)

  /** A headline after translation: the translator's item shape, which carries a
      summary and an image next to the Chinese fields. */
  datatype TranslatedNews = TranslatedNews(
    id: ItemId,
    title: string,
    titleChinese: Option<string>,
    summary: string,
    summaryChinese: Option<string>,
    url: string,
    publishedAt: string,
    imageUrl: Option<string>,
    category: string)

  /** The single cache slot: items, the time they were stored (ms), whether a
      refresh is running, and the last refresh error. */
  datatype CacheEntry = CacheEntry(news: seq<NewsItem>, lastUpdated: int, isUpdating: bool, error: Option<string>)

  datatype Status = Loading | Cached | Fresh | Error | Translating

  /** JavaScript truthiness of an optional string: present and not empty. */
  predicate Truthy(s: Option<string>) {
    s.Some? && s.value != ""
  }

  /** `a || b` on strings: `a` unless it is empty. */
  function OrElse(a: string, b: string): (r: string)
    ensures r == a || r == b
    ensures a != "" ==> r == a
  {
    if a != "" then a else b
  }
}
