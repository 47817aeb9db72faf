/** The pure logic of the news item card: which language is displayed, the
    relative publication time, the ticker and hashtag tags found in the
    content, and when the link, the translated badge and the language toggle
    are shown. Dates are read through `parse` (`None` for an invalid date);
    `now` is the current time in milliseconds. */
module NewsItemView {
  import opened Wrappers
  import opened Text
  import opened Seqs
  import opened NewsTypes

  /** The title shown: the Chinese title when Chinese is selected and there is one. */
  function DisplayTitle(news: NewsItem, showChinese: bool): (r: string)
    ensures showChinese && Truthy(news.titleChinese) ==> r == news.titleChinese.value
    ensures !showChinese || !Truthy(news.titleChinese) ==> r == news.title
  {
    if showChinese && Truthy(news.titleChinese) then news.titleChinese.value else news.title
  }

  /** The content shown: the Chinese content when Chinese is selected and there is one. */
  function DisplayContent(news: NewsItem, showChinese: bool): (r: string)
    ensures showChinese && Truthy(news.contentChinese) ==> r == news.contentChinese.value
    ensures !showChinese || !Truthy(news.contentChinese) ==> r == news.content
  {
    if showChinese && Truthy(news.contentChinese) then news.contentChinese.value else news.content
  }

  /** The "translated" badge shows when both Chinese fields are non-empty. */
  predicate ShowTranslatedBadge(news: NewsItem) {
    Truthy(news.titleChinese) && Truthy(news.contentChinese)
  }

  /** The language toggle shows when a handler is given and the item is translated. */
  predicate ShowLanguageToggle(news: NewsItem, hasToggleHandler: bool) {
    hasToggleHandler && ShowTranslatedBadge(news)
  }

  /** The toggle's label names the language it switches to. */
  function ToggleLabel(showChinese: bool): (r: string)
    ensures r == (if showChinese then "EN" else "中")
  {
    if showChinese then "EN" else "中"
  }

  /** Whenever the toggle is offered, it switches title and content together:
      Chinese shows both translations, English shows both originals. */
  lemma ToggleSwitchesTitleAndContent(news: NewsItem, hasToggleHandler: bool)
    requires ShowLanguageToggle(news, hasToggleHandler)
    ensures DisplayTitle(news, true) == news.titleChinese.value
    ensures DisplayContent(news, true) == news.contentChinese.value
    ensures DisplayTitle(news, false) == news.title
    ensures DisplayContent(news, false) == news.content
  {
  }

  /** The link shows when the item has a link that is not blank. */
  predicate HasLink(news: NewsItem) {
    news.url.Some? && Trim(news.url.value) != ""
  }

  /** A link is shown exactly when it has a visible character. */
  lemma HasLinkIffVisible(news: NewsItem)
    requires news.url.Some?
    ensures HasLink(news) <==> Visible(news.url.value) != ""
  {
    var u := news.url.value;
    VisibleOfTrim(u);
    var t := Trim(u);
    if t != "" {
      assert !IsWhitespace(t[0]);
      assert t == [t[0]] + t[1..];
      VisibleAppend([t[0]], t[1..]);
    }
  }

  const MINUTE_MS: int := 60 * 1000
  const HOUR_MINUTES: int := 60
  const DAY_MINUTES: int := 1440

  /** How long ago an item was published, as the card buckets it. */
  datatype Ago =
    | JustNow
    | MinutesAgo(minutes: nat)
    | HoursAgo(hours: nat)
    | DaysAgo(days: nat)
    | InvalidDate

  /** `formatTime`'s bucketing: whole minutes elapsed (rounded down; a date
      in the future counts as just now), then minutes below an hour, hours
      below a day, days otherwise. An invalid date gives `NaN` minutes, which
      fails every comparison and lands in the days branch. */
  function AgoOf(published: Option<int>, now: int): Ago {
    match published
    case None => InvalidDate
    case Some(t) =>
      var minutes := (now - t) / MINUTE_MS;
      if minutes < 1 then JustNow
      else if minutes < HOUR_MINUTES then MinutesAgo(minutes)
      else if minutes < DAY_MINUTES then HoursAgo(minutes / HOUR_MINUTES)
      else DaysAgo(minutes / DAY_MINUTES)
  }

  /** Each bucket covers exactly the elapsed times it names. */
  lemma AgoMeaning(t: int, now: int)
    ensures var d := now - t;
            match AgoOf(Some(t), now)
            case JustNow => d < 60000
            case MinutesAgo(m) => 1 <= m < 60 && m * 60000 <= d < (m + 1) * 60000
            case HoursAgo(h) => 1 <= h < 24 && h * 3600000 <= d < (h + 1) * 3600000
            case DaysAgo(k) => 1 <= k && k * 86400000 <= d < (k + 1) * 86400000
            case InvalidDate => false
  {
  }

  /** A later reading of the clock never moves an item to an earlier bucket. */
  lemma AgoMonotone(t: int, now: int, later: int)
    requires now <= later
    ensures AgoRank(AgoOf(Some(t), now)) <= AgoRank(AgoOf(Some(t), later))
  {
    assert (now - t) / MINUTE_MS <= (later - t) / MINUTE_MS;
  }

  /** Buckets in order of elapsed time, counted in minutes, hours and days. */
  function AgoRank(a: Ago): int {
    match a
    case JustNow => 0
    case MinutesAgo(m) => m
    case HoursAgo(h) => h * 60
    case DaysAgo(k) => k * 1440
    case InvalidDate => 0
  }

  /** The text shown for a bucket. */
  function AgoText(a: Ago): (r: string)
    ensures a.MinutesAgo? ==> r == NatToString(a.minutes) + "分钟前"
    ensures a.HoursAgo? ==> r == NatToString(a.hours) + "小时前"
    ensures a.DaysAgo? ==> r == NatToString(a.days) + "天前"
  {
    match a
    case JustNow => "刚刚"
    case MinutesAgo(m) => NatToString(m) + "分钟前"
    case HoursAgo(h) => NatToString(h) + "小时前"
    case DaysAgo(k) => NatToString(k) + "天前"
    case InvalidDate => "NaN天前"
  }

  function FormatTime(publishedAt: string, parse: string -> Option<int>, now: int): string {
    AgoText(AgoOf(parse(publishedAt), now))
  }

  /** The number shown in front of a unit reads back as the bucket's count. */
  lemma AgoTextReadsBack(a: Ago, unit: string)
    requires a.MinutesAgo? || a.HoursAgo? || a.DaysAgo?
    requires unit == (if a.MinutesAgo? then "分钟前" else if a.HoursAgo? then "小时前" else "天前")
    ensures var text := AgoText(a);
            |text| >= |unit| && text[|text| - |unit|..] == unit
            && (forall i :: 0 <= i < |text| - |unit| ==> IsDigit(text[i]))
            && DecimalValue(text[..|text| - |unit|])
               == (if a.MinutesAgo? then a.minutes else if a.HoursAgo? then a.hours else a.days)
  {
    var n := if a.MinutesAgo? then a.minutes else if a.HoursAgo? then a.hours else a.days;
    var text := AgoText(a);
    assert text == NatToString(n) + unit;
    assert text[..|text| - |unit|] == NatToString(n);
    assert text[|text| - |unit|..] == unit;
    NatToStringRoundTrip(n);
  }

  predicate IsUpper(c: char) {
    'A' <= c <= 'Z'
  }

  predicate IsWordChar(c: char) {
    ('a' <= c <= 'z') || ('A' <= c <= 'Z') || ('0' <= c <= '9') || c == '_'
  }

  /** How many characters satisfying `p` follow position `i`, at most `max`. */
  function RunLength(s: string, i: nat, p: char -> bool, max: nat): (n: nat)
    ensures n <= max && (n == 0 || i + n <= |s|)
    ensures forall k :: i <= k < i + n ==> k < |s| && p(s[k])
    ensures n < max && i + n < |s| ==> !p(s[i + n])
    decreases max
  {
    if max == 0 || i >= |s| || !p(s[i]) then 0 else 1 + RunLength(s, i + 1, p, max - 1)
  }

  /** A match of `sigil` followed by one to `max` characters satisfying `p`. */
  predicate SigilMatch(m: string, sigil: char, p: char -> bool, max: nat) {
    2 <= |m| <= max + 1 && m[0] == sigil && forall k :: 1 <= k < |m| ==> p(m[k])
  }

  /** `s.match(/<sigil>[p]{1,max}/g)` from position `i`: at each position
      where the sigil is followed by at least one `p` character, the sigil and
      the longest run (up to `max`) are a match and the scan resumes after it;
      elsewhere the scan moves on by one character. */
  function ScanMatches(s: string, i: nat, sigil: char, p: char -> bool, max: nat): seq<string>
    decreases |s| - i
  {
    if i >= |s| then []
    else if s[i] == sigil && RunLength(s, i + 1, p, max) >= 1 then
      var n := RunLength(s, i + 1, p, max);
      var m := s[i..i + 1 + n];
      var rest := ScanMatches(s, i + 1 + n, sigil, p, max);
      [m] + rest
    else ScanMatches(s, i + 1, sigil, p, max)
  }

  /** Every match is the sigil followed by one to `max` characters satisfying `p`. */
  lemma {:induction false} ScanMatchesAreMatches(s: string, i: nat, sigil: char, p: char -> bool, max: nat)
    ensures forall k :: 0 <= k < |ScanMatches(s, i, sigil, p, max)| ==> SigilMatch(ScanMatches(s, i, sigil, p, max)[k], sigil, p, max)
    decreases |s| - i
  {
    if i < |s| {
      if s[i] == sigil && RunLength(s, i + 1, p, max) >= 1 {
        var n := RunLength(s, i + 1, p, max);
        var m := s[i..i + 1 + n];
        ScanMatchesAreMatches(s, i + 1 + n, sigil, p, max);
        assert forall k :: 1 <= k < |m| ==> m[k] == s[i + k];
        assert SigilMatch(m, sigil, p, max);
      } else {
        ScanMatchesAreMatches(s, i + 1, sigil, p, max);
      }
    }
  }

  /** Every match is a piece of the text at or after where the scan started. */
  lemma {:induction false} ScanMatchesOccur(s: string, i: nat, sigil: char, p: char -> bool, max: nat, k: nat)
    requires k < |ScanMatches(s, i, sigil, p, max)|
    ensures exists j :: i <= j && OccursAt(s, ScanMatches(s, i, sigil, p, max)[k], j)
    decreases |s| - i
  {
    if i < |s| {
      if s[i] == sigil && RunLength(s, i + 1, p, max) >= 1 {
        var n := RunLength(s, i + 1, p, max);
        if k == 0 {
          assert ScanMatches(s, i, sigil, p, max)[0] == s[i..i + 1 + n];
          assert OccursAt(s, s[i..i + 1 + n], i);
        } else {
          ScanMatchesOccur(s, i + 1 + n, sigil, p, max, k - 1);
          assert ScanMatches(s, i, sigil, p, max)[k] == ScanMatches(s, i + 1 + n, sigil, p, max)[k - 1];
          var j :| i + 1 + n <= j && OccursAt(s, ScanMatches(s, i + 1 + n, sigil, p, max)[k - 1], j);
          assert i <= j;
        }
      } else {
        ScanMatchesOccur(s, i + 1, sigil, p, max, k);
      }
    }
  }

  const MAX_TICKERS: nat := 3
  const MAX_HASHTAGS: nat := 2
  const TICKER_LETTERS: nat := 5

  /** `$` followed by one to five capital letters. */
  function Tickers(content: string): seq<string> {
    ScanMatches(content, 0, '$', IsUpper, TICKER_LETTERS)
  }

  /** `#` followed by one or more letters, digits or underscores. */
  function Hashtags(content: string): seq<string> {
    ScanMatches(content, 0, '#', IsWordChar, |content|)
  }

  /** `extractTags`: the first three tickers, then the first two hashtags,
      without repeats, keeping first occurrences. */
  function ExtractTags(content: string): (tags: seq<string>)
    ensures |tags| <= MAX_TICKERS + MAX_HASHTAGS
    ensures NoDuplicates(tags)
    ensures forall t :: t in tags <==> t in Slice0(Tickers(content), MAX_TICKERS) || t in Slice0(Hashtags(content), MAX_HASHTAGS)
  {
    Distinct(Slice0(Tickers(content), MAX_TICKERS) + Slice0(Hashtags(content), MAX_HASHTAGS))
  }

  /** Every tag is a ticker or a hashtag that occurs in the content, and the
      tickers come first: removing repeats never mixes the two kinds. */
  lemma ExtractTagsShape(content: string)
    ensures var tickers := Slice0(Tickers(content), MAX_TICKERS);
            var hashtags := Slice0(Hashtags(content), MAX_HASHTAGS);
            ExtractTags(content) == Distinct(tickers) + Distinct(hashtags)
    ensures forall t :: t in ExtractTags(content) ==>
              (SigilMatch(t, '$', IsUpper, TICKER_LETTERS) || SigilMatch(t, '#', IsWordChar, |content|))
              && exists j :: OccursAt(content, t, j)
  {
    var tickers := Slice0(Tickers(content), MAX_TICKERS);
    var hashtags := Slice0(Hashtags(content), MAX_HASHTAGS);
    ScanMatchesAreMatches(content, 0, '$', IsUpper, TICKER_LETTERS);
    ScanMatchesAreMatches(content, 0, '#', IsWordChar, |content|);
    assert forall t :: t in tickers ==> t[0] == '$' by {
      forall t | t in tickers
        ensures t[0] == '$'
      {
        var k :| 0 <= k < |tickers| && tickers[k] == t;
        assert t == Tickers(content)[k];
      }
    }
    assert forall t :: t in hashtags ==> t[0] == '#' by {
      forall t | t in hashtags
        ensures t[0] == '#'
      {
        var k :| 0 <= k < |hashtags| && hashtags[k] == t;
        assert t == Hashtags(content)[k];
      }
    }
    DistinctOfDisjointAppend(tickers, hashtags);
    forall t | t in ExtractTags(content)
      ensures (SigilMatch(t, '$', IsUpper, TICKER_LETTERS) || SigilMatch(t, '#', IsWordChar, |content|))
              && exists j :: OccursAt(content, t, j)
    {
      if t in tickers {
        var k :| 0 <= k < |tickers| && tickers[k] == t;
        assert t == Tickers(content)[k];
        ScanMatchesOccur(content, 0, '$', IsUpper, TICKER_LETTERS, k);
      } else {
        var k :| 0 <= k < |hashtags| && hashtags[k] == t;
        assert t == Hashtags(content)[k];
        ScanMatchesOccur(content, 0, '#', IsWordChar, |content|, k);
      }
    }
  }
}
