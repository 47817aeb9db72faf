/** The tweet feed: records scanned from the `Tweets` table are validated,
    cleaned, ordered newest first, cut to a limit, and turned into news items.
    The table scan is an input (`ScanResult`); dates are read through the
    uninterpreted `parse`, which stands for `new Date(s).getTime()` and is
    `None` where that gives `NaN`. */
module TweetsService {
  import opened Wrappers
  import opened Text
  import opened Seqs
  import opened NewsTypes

  /** A field of a scanned item as JavaScript sees it: absent (`undefined` or
      `null`), a string, or another value (number, boolean, object) with its
      truthiness and the time `new Date(value)` reads from it. */
  datatype Field = Missing | Str(s: string) | Other(truthy: bool, time: Option<int>)

  datatype TweetRecord = TweetRecord(createdAt: Field, content: Field, originalLinks: Field)

  /** The outcome of the table scan: no client, a failed request, or the
      `Items` of the response (absent or a list). */
  datatype ScanResult = NoClient | ScanFailed(message: string) | Scanned(items: Option<seq<TweetRecord>>)

  /** Why the scan-and-clean step throws: the request failed, or cleaning
      called `trim` on a value that is not a string. */
  datatype Cause = ScanError(message: string) | NonStringField

  datatype TweetsError = ClientUnavailable | FetchFailed(cause: Cause)

  const CLIENT_UNAVAILABLE_MESSAGE: string := "DynamoDB client not available. Please check AWS credentials."

  predicate FieldTruthy(f: Field) {
    match f
    case Missing => false
    case Str(s) => s != ""
    case Other(t, _) => t
  }

  function DateOf(f: Field, parse: string -> Option<int>): Option<int> {
    match f
    case Missing => None
    case Str(s) => parse(s)
    case Other(_, time) => time
  }

  /** `validateTweetData`. */
  predicate ValidateTweetData(r: TweetRecord, parse: string -> Option<int>) {
    if !FieldTruthy(r.createdAt) || !FieldTruthy(r.content) then false
    else if !r.content.Str? || |Trim(r.content.s)| < 10 then false
    else DateOf(r.createdAt, parse).Some?
  }

  /** A record passes validation exactly when both required fields are set,
      the content is a string of at least ten characters once trimmed, and the
      date parses. */
  lemma ValidateTweetDataMeaning(r: TweetRecord, parse: string -> Option<int>)
    ensures ValidateTweetData(r, parse) <==>
              && FieldTruthy(r.createdAt)
              && r.content.Str? && |Trim(r.content.s)| >= 10
              && DateOf(r.createdAt, parse).Some?
    ensures !FieldTruthy(r.createdAt) || r.content.Missing? ==> !ValidateTweetData(r, parse)
  {
  }

  /** `cleanTweetData`: trims the date, trims the content and collapses its
      whitespace runs, and keeps the link only when it is non-blank. A field
      that is not a string where `trim` is called makes it throw. */
  function CleanTweetData(r: TweetRecord): (res: Result<TweetRaw, Cause>)
    ensures res.Success? <==> r.createdAt.Str? && r.content.Str? && !r.originalLinks.Other?
    ensures res.Failure? ==> res.error == NonStringField
  {
    if !r.createdAt.Str? || !r.content.Str? || r.originalLinks.Other? then Failure(NonStringField)
    else
      var links := match r.originalLinks
        case Str(s) => if Trim(s) == "" then None else Some(Trim(s))
        case _ => None;
      Success(TweetRaw(Trim(r.createdAt.s), Collapse(Trim(r.content.s)), links))
  }

  /** A cleaned tweet has a trimmed date, content without whitespace at its
      ends or whitespace runs but with the same visible characters, and a link
      only when the record had a non-blank one. */
  lemma CleanTweetDataMeaning(r: TweetRecord)
    requires CleanTweetData(r).Success?
    ensures var t := CleanTweetData(r).value;
            && t.createdAt == Trim(r.createdAt.s)
            && Trimmed(t.content) && Collapsed(t.content)
            && Visible(t.content) == Visible(r.content.s)
            && (t.originalLinks.Some? <==> r.originalLinks.Str? && Trim(r.originalLinks.s) != "")
            && (t.originalLinks.Some? ==> t.originalLinks.value == Trim(r.originalLinks.s))
  {
    CollapseKeepsTrimmed(Trim(r.content.s));
    CollapseIsCollapsed(Trim(r.content.s));
    CollapseKeepsVisible(Trim(r.content.s));
    VisibleOfTrim(r.content.s);
  }

  /** The sort key: the cleaned date as a timestamp. */
  function TweetTime(parse: string -> Option<int>): TweetRaw -> Option<int> {
    (t: TweetRaw) => parse(t.createdAt)
  }

  /** The part of `fetchLatestTweets` after the scan: keep the valid records,
      clean them, order them newest first and take the first `limit`. */
  function SelectTweets(items: seq<TweetRecord>, limit: int, parse: string -> Option<int>): (res: Result<seq<TweetRaw>, Cause>)
    ensures items == [] ==> res == Success([])
    ensures res.Failure? <==>
              exists i :: 0 <= i < |items| && ValidateTweetData(items[i], parse) && CleanTweetData(items[i]).Failure?
    ensures res.Success? && 0 <= limit ==> |res.value| <= limit
    ensures res.Success? ==> SortedDesc(res.value, TweetTime(parse))
    ensures res.Success? ==>
              forall t :: t in res.value ==>
                exists i :: 0 <= i < |items| && ValidateTweetData(items[i], parse) && CleanTweetData(items[i]) == Success(t)
    ensures res.Success? && 0 <= limit ==>
              |res.value| == SliceEnd(|Filter(items, (r: TweetRecord) => ValidateTweetData(r, parse))|, limit)
    ensures res.Success? ==>
              NewestOf(res.value, MapResult(Filter(items, (r: TweetRecord) => ValidateTweetData(r, parse)), CleanTweetData).value, TweetTime(parse))
  {
    if items == [] then Success([])
    else FilterMapSortSlice(items, (r: TweetRecord) => ValidateTweetData(r, parse), CleanTweetData, TweetTime(parse), limit)
  }

  /** `fetchLatestTweets(limit)`: no client throws outside the guarded block;
      a failed scan or a failed clean surfaces as "Failed to fetch tweets";
      a response without items yields `[]`. */
  function FetchLatestTweets(scan: ScanResult, limit: int, parse: string -> Option<int>): (res: Result<seq<TweetRaw>, TweetsError>)
    ensures scan.NoClient? <==> res == Failure(ClientUnavailable)
    ensures scan.ScanFailed? ==> res == Failure(FetchFailed(ScanError(scan.message)))
    ensures scan.Scanned? && (scan.items.None? || scan.items.value == []) ==> res == Success([])
    ensures scan.Scanned? && scan.items.Some? ==>
              match SelectTweets(scan.items.value, limit, parse)
              case Success(ts) => res == Success(ts)
              case Failure(e) => res == Failure(FetchFailed(e))
  {
    match scan
    case NoClient => Failure(ClientUnavailable)
    case ScanFailed(m) => Failure(FetchFailed(ScanError(m)))
    case Scanned(None) => Success([])
    case Scanned(Some(items)) =>
      match SelectTweets(items, limit, parse)
      case Success(ts) => Success(ts)
      case Failure(e) => Failure(FetchFailed(e))
  }

  const TITLE_LENGTH: nat := 50

  /** The title of a tweet item: newlines become spaces, the first 50
      characters are kept and trimmed, and `...` is appended when the content
      is longer than that. */
  function TweetTitle(content: string): (title: string)
    ensures |title| <= TITLE_LENGTH + 3
    ensures |content| > TITLE_LENGTH ==>
              |title| >= 3 && title[|title| - 3..] == "..."
              && title[..|title| - 3] == Trim(ReplaceChar(content[..TITLE_LENGTH], '\n', ' '))
    ensures |content| <= TITLE_LENGTH ==> title == Trim(ReplaceChar(content, '\n', ' '))
    ensures |content| > TITLE_LENGTH ==> forall i :: 0 <= i < |title| - 3 ==> title[i] != '\n'
    ensures |content| <= TITLE_LENGTH ==> forall i :: 0 <= i < |title| ==> title[i] != '\n'
  {
    var flat := ReplaceChar(content, '\n', ' ');
    assert |content| > TITLE_LENGTH ==> Take(flat, TITLE_LENGTH) == ReplaceChar(content[..TITLE_LENGTH], '\n', ' ');
    var head := Trim(Take(flat, TITLE_LENGTH));
    NoNewlineAfterTrim(Take(flat, TITLE_LENGTH));
    head + (if |content| > TITLE_LENGTH then "..." else "")
  }

  lemma NoNewlineAfterTrim(s: string)
    requires forall i :: 0 <= i < |s| ==> s[i] != '\n'
    ensures forall i :: 0 <= i < |Trim(s)| ==> Trim(s)[i] != '\n'
  {
    var r := Trim(s);
    TrimMeaning(s);
    var k := LeadingWhitespace(s);
    forall i | 0 <= i < |r|
      ensures r[i] != '\n'
    {
      assert r[i] == s[k + i];
    }
  }

  /** One tweet as a news item. */
  function TweetToNewsItem(t: TweetRaw, index: nat, parse: string -> Option<int>): NewsItem {
    NewsItem(
      id := TweetId(parse(t.createdAt), index),
      title := TweetTitle(t.content),
      titleChinese := None,
      content := t.content,
      contentChinese := None,
      url := t.originalLinks,
      publishedAt := t.createdAt,
      category := Some("business"),
      source := "tweets")
  }

  /** `convertTweetsToNewsItems`: one item per tweet, in order, carrying the
      tweet's content, link and date unchanged, no translation, the business
      category and the tweets source. */
  function ConvertTweetsToNewsItems(tweets: seq<TweetRaw>, parse: string -> Option<int>): (items: seq<NewsItem>)
    ensures |items| == |tweets|
    ensures forall i :: 0 <= i < |items| ==>
              && items[i].content == tweets[i].content
              && items[i].url == tweets[i].originalLinks
              && items[i].publishedAt == tweets[i].createdAt
              && items[i].titleChinese.None? && items[i].contentChinese.None?
              && items[i].category == Some("business") && items[i].source == "tweets"
              && items[i].id == TweetId(parse(tweets[i].createdAt), i)
              && items[i].title == TweetTitle(tweets[i].content)
              && |items[i].title| <= TITLE_LENGTH + 3
  {
    seq(|tweets|, i requires 0 <= i < |tweets| => TweetToNewsItem(tweets[i], i, parse))
  }

  /** `fetchLatestNews(limit)`: the selected tweets as news items, or the error. */
  function FetchLatestNews(scan: ScanResult, limit: int, parse: string -> Option<int>): (res: Result<seq<NewsItem>, TweetsError>)
    ensures res.Failure? <==> FetchLatestTweets(scan, limit, parse).Failure?
    ensures res.Success? ==> |res.value| == |FetchLatestTweets(scan, limit, parse).value|
    ensures res.Success? && 0 <= limit ==> |res.value| <= limit
  {
    match FetchLatestTweets(scan, limit, parse)
    case Failure(e) => Failure(e)
    case Success(ts) => Success(ConvertTweetsToNewsItems(ts, parse))
  }
}
