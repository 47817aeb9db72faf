/** The BBC Business scraper after the HTML has been queried: turning matched
    card elements and fallback links into raw headlines, removing duplicates,
    ordering newest first and keeping ten, and the standalone item validation
    and cleaning helpers.

    The page is an input: for each card selector, in priority order, the
    elements it matches, each reduced to the texts and attributes the scraper
    reads; and every `a[href]` link. `nowIso` stands for
    `new Date().toISOString()`, `parse` for `new Date(s).getTime()` (`None`
    for `NaN`), `isUrl` for "`new URL(s)` does not throw". */
module NewsScraper {
  import opened Wrappers
  import opened Text
  import opened Seqs
  import opened NewsTypes

  const BBC_ORIGIN: string := "https://www.bbc.com"
  /** The most headlines the scraper collects and returns. */
  const MAX_NEWS: nat := 10
  const TITLE_LIMIT: nat := 200
  const SUMMARY_LIMIT: nat := 500

  /** One matched card: the first heading's text, the first link's `href`,
      `aria-label` and `title`, the first summary element's text, the first
      image's `src` and `data-src`, and the first time element's `datetime`
      and text. Absent attributes are `None`; texts are untrimmed. */
  datatype Card = Card(
    headingText: string,
    linkHref: Option<string>,
    linkAriaLabel: Option<string>,
    linkTitle: Option<string>,
    summaryText: string,
    imageSrc: Option<string>,
    imageDataSrc: Option<string>,
    timeDatetime: Option<string>,
    timeText: string)

  datatype Link = Link(href: Option<string>, text: string)

  datatype Page = Page(selectorMatches: seq<seq<Card>>, links: seq<Link>)

  /** A site-relative link (`/...`) gets the BBC origin in front. */
  function AbsoluteHref(href: string): (r: string)
    ensures StartsWith(href, "/") ==> r == BBC_ORIGIN + href
    ensures !StartsWith(href, "/") ==> r == href
    ensures !StartsWith(r, "/")
    ensures href != "" ==> r != ""
  {
    if StartsWith(href, "/") then
      var r := BBC_ORIGIN + href;
      assert r[..1][0] == 'h';
      r
    else href
  }

  /** Making a link absolute twice changes nothing more. */
  lemma AbsoluteHrefIdempotent(href: string)
    ensures AbsoluteHref(AbsoluteHref(href)) == AbsoluteHref(href)
  {
  }

  /** An image URL: protocol-relative (`//host/...`) gets `https:`, otherwise a
      site-relative one gets the BBC origin; the first rule wins. */
  function AbsoluteImageUrl(u: string): (r: string)
    ensures StartsWith(u, "//") ==> r == "https:" + u
    ensures !StartsWith(u, "//") && StartsWith(u, "/") ==> r == BBC_ORIGIN + u
    ensures !StartsWith(u, "/") ==> r == u
    ensures !StartsWith(r, "/")
  {
    if StartsWith(u, "//") then
      var r := "https:" + u;
      assert r[..1][0] == 'h';
      r
    else if StartsWith(u, "/") then
      var r := BBC_ORIGIN + u;
      assert r[..1][0] == 'h';
      r
    else u
  }

  /** A protocol-relative image is read over https from its own host, never
      from the BBC origin. */
  lemma ProtocolRelativeImageKeepsHost(rest: string)
    ensures AbsoluteImageUrl("//" + rest) == "https://" + rest
  {
    assert StartsWith("//" + rest, "//");
    assert "https:" + ("//" + rest) == "https://" + rest;
  }

  /** `a || b` on optional attributes. */
  function FirstTruthy(a: Option<string>, b: Option<string>): (r: Option<string>)
    ensures Truthy(a) ==> r == a
    ensures !Truthy(a) ==> r == b
  {
    if Truthy(a) then a else b
  }

  /** The card's title: the trimmed heading text, or else the link's
      `aria-label`, or else its `title`, or else empty. */
  function CardTitle(card: Card): string {
    var heading := Trim(card.headingText);
    if heading != "" then heading
    else if Truthy(card.linkAriaLabel) then card.linkAriaLabel.value
    else if Truthy(card.linkTitle) then card.linkTitle.value
    else ""
  }

  /** The card's image: `src`, else `data-src`, made absolute, and dropped when empty. */
  function CardImage(card: Card): (r: Option<string>)
    ensures Truthy(card.imageSrc) ==> r == Some(AbsoluteImageUrl(card.imageSrc.value))
    ensures !Truthy(card.imageSrc) && Truthy(card.imageDataSrc) ==> r == Some(AbsoluteImageUrl(card.imageDataSrc.value))
    ensures !Truthy(card.imageSrc) && !Truthy(card.imageDataSrc) ==> r.None?
    ensures r.Some? ==> r.value != "" && !StartsWith(r.value, "/")
  {
    var img := FirstTruthy(card.imageSrc, card.imageDataSrc);
    if Truthy(img) then Some(AbsoluteImageUrl(img.value)) else None
  }

  /** The card's date: the `datetime` attribute, else the trimmed time text,
      else the current time. */
  function CardDate(card: Card, nowIso: string): (r: string)
    ensures Truthy(card.timeDatetime) ==> r == card.timeDatetime.value
    ensures !Truthy(card.timeDatetime) && Trim(card.timeText) != "" ==> r == Trim(card.timeText)
    ensures !Truthy(card.timeDatetime) && Trim(card.timeText) == "" ==> r == nowIso
    ensures r == "" ==> nowIso == ""
  {
    var d := if Truthy(card.timeDatetime) then card.timeDatetime.value else Trim(card.timeText);
    if d != "" then d else nowIso
  }

  /** One card as a headline: accepted exactly when it has a title longer than
      ten characters and a non-empty link; the title is cut to 200 characters,
      the summary to 500, and an empty summary is replaced by the whole title. */
  function ExtractCard(card: Card, nowIso: string): Option<RawNews> {
    var title := CardTitle(card);
    if title != "" && Truthy(card.linkHref) && |title| > 10 then
      var summary := Take(Trim(card.summaryText), SUMMARY_LIMIT);
      Some(RawNews(
        title := Take(title, TITLE_LIMIT),
        summary := OrElse(summary, title),
        url := AbsoluteHref(card.linkHref.value),
        publishedAt := CardDate(card, nowIso),
        imageUrl := CardImage(card)))
    else None
  }

  /** A card is accepted exactly when it has a title longer than ten
      characters and a non-empty link, and then its headline has these fields. */
  lemma ExtractCardMeaning(card: Card, nowIso: string)
    ensures ExtractCard(card, nowIso).Some? <==> |CardTitle(card)| > 10 && Truthy(card.linkHref)
    ensures ExtractCard(card, nowIso).Some? ==>
            var x := ExtractCard(card, nowIso).value;
            && Collected(x)
            && x.title == Take(CardTitle(card), TITLE_LIMIT)
            && 10 < |x.title| <= TITLE_LIMIT
            && x.url == AbsoluteHref(card.linkHref.value) && x.url != ""
            && x.summary != ""
            && (Trim(card.summaryText) != "" ==> x.summary == Take(Trim(card.summaryText), SUMMARY_LIMIT))
            && (Trim(card.summaryText) == "" ==> x.summary == CardTitle(card))
            && x.publishedAt == CardDate(card, nowIso)
            && x.imageUrl == CardImage(card)
  {
  }

  /** What every collected headline satisfies. */
  predicate Collected(x: RawNews) {
    10 < |x.title| <= TITLE_LIMIT && x.url != "" && x.summary != ""
  }

  /** A card's headline, if the card is accepted. */
  function CardHeadline(nowIso: string): Card -> Option<RawNews> {
    (card: Card) => ExtractCard(card, nowIso)
  }

  /** The headlines `pick` yields for `xs`, in order: the list a scan would
      build if it never stopped. */
  function Headlines<T>(xs: seq<T>, pick: T -> Option<RawNews>): seq<RawNews>
    decreases |xs|
  {
    if xs == [] then []
    else
      var rest := Headlines(xs[1..], pick);
      match pick(xs[0])
      case None => rest
      case Some(x) => [x] + rest
  }

  /** Whatever holds of every headline `pick` yields holds of all of them. */
  lemma {:induction false} HeadlinesSatisfy<T>(xs: seq<T>, pick: T -> Option<RawNews>, P: RawNews -> bool)
    requires forall x :: pick(x).Some? ==> P(pick(x).value)
    ensures forall i :: 0 <= i < |Headlines(xs, pick)| ==> P(Headlines(xs, pick)[i])
    decreases |xs|
  {
    if xs != [] {
      HeadlinesSatisfy(xs[1..], pick, P);
    }
  }

  /** `elements.each(...)` and the fallback's `allLinks.each(...)`: each element
      that yields a headline pushes it after `news`, and the loop stops once
      ten headlines are held. */
  function Scan<T>(xs: seq<T>, news: seq<RawNews>, pick: T -> Option<RawNews>): seq<RawNews>
    requires |news| < MAX_NEWS
    decreases |xs|
  {
    if xs == [] then news
    else
      match pick(xs[0])
      case None => Scan(xs[1..], news, pick)
      case Some(x) =>
        var news' := news + [x];
        if |news'| >= MAX_NEWS then news' else Scan(xs[1..], news', pick)
  }

  /** The loop appends the first headlines, as many as fit under ten. */
  lemma {:induction false} ScanMeaning<T>(xs: seq<T>, news: seq<RawNews>, pick: T -> Option<RawNews>)
    requires |news| < MAX_NEWS
    ensures Scan(xs, news, pick) == news + Slice0(Headlines(xs, pick), MAX_NEWS - |news|)
    decreases |xs|
  {
    if xs != [] {
      var h := Headlines(xs[1..], pick);
      match pick(xs[0])
      case None =>
        ScanMeaning(xs[1..], news, pick);
      case Some(x) =>
        assert Headlines(xs, pick) == [x] + h;
        PushThenSlice(news, x, h);
        if |news| + 1 < MAX_NEWS {
          ScanMeaning(xs[1..], news + [x], pick);
        }
    }
  }

  /** Pushing one headline, then taking what fits, is taking what fits of
      the headlines that start with it. */
  lemma PushThenSlice(news: seq<RawNews>, x: RawNews, h: seq<RawNews>)
    requires |news| < MAX_NEWS
    ensures |news| + 1 >= MAX_NEWS ==> news + Slice0([x] + h, MAX_NEWS - |news|) == news + [x]
    ensures |news| + 1 < MAX_NEWS ==>
              news + Slice0([x] + h, MAX_NEWS - |news|) == (news + [x]) + Slice0(h, MAX_NEWS - (|news| + 1))
  {
    SliceCons(x, h, MAX_NEWS - |news|);
    assert Slice0(h, 0) == [];
  }

  /** The selector loop. A selector that matches anything marks the page as
      understood; the loop stops at the first selector whose cards yield
      headlines. Since it stops there, the list it appends to is still empty
      whenever a selector is tried. */
  function ScanSelectors<T>(groups: seq<seq<T>>, found: bool, pick: T -> Option<RawNews>): (res: (seq<RawNews>, bool))
    decreases |groups|
  {
    if groups == [] then ([], found)
    else if |groups[0]| > 0 then
      var news := Scan(groups[0], [], pick);
      if |news| > 0 then (news, true) else ScanSelectors(groups[1..], true, pick)
    else ScanSelectors(groups[1..], found, pick)
  }

  /** `news` is the first ten headlines of the selector at `i`, and no
      earlier selector's cards yield any. */
  predicate FirstYieldAt<T>(groups: seq<seq<T>>, news: seq<RawNews>, pick: T -> Option<RawNews>, i: int) {
    && 0 <= i < |groups| && news == Slice0(Headlines(groups[i], pick), MAX_NEWS)
    && forall j :: 0 <= j < i ==> Headlines(groups[j], pick) == []
  }

  ghost predicate FirstYield<T>(groups: seq<seq<T>>, news: seq<RawNews>, pick: T -> Option<RawNews>) {
    exists i :: FirstYieldAt(groups, news, pick, i)
  }

  /** The loop reports the page understood exactly when some selector
      matched, and returns the first ten headlines of the first selector
      whose cards yield any, or nothing when none does. */
  lemma {:induction false} ScanSelectorsMeaning<T>(groups: seq<seq<T>>, found: bool, pick: T -> Option<RawNews>)
    ensures var res := ScanSelectors(groups, found, pick);
            && (res.1 <==> found || exists i :: 0 <= i < |groups| && groups[i] != [])
            && (res.0 == [] <==> forall i :: 0 <= i < |groups| ==> Headlines(groups[i], pick) == [])
            && (res.0 != [] ==> FirstYield(groups, res.0, pick))
    decreases |groups|
  {
    if groups != [] {
      var head := Headlines(groups[0], pick);
      var rest := groups[1..];
      assert forall i :: 0 < i < |groups| ==> groups[i] == rest[i - 1];
      assert groups[0] == [] ==> head == [];
      ScanMeaning(groups[0], [], pick);
      if head == [] {
        var found' := found || groups[0] != [];
        ScanSelectorsMeaning(rest, found', pick);
        var res := ScanSelectors(rest, found', pick);
        assert ScanSelectors(groups, found, pick) == res;
        if res.0 != [] {
          var i :| FirstYieldAt(rest, res.0, pick, i);
          assert FirstYieldAt(groups, res.0, pick, i + 1);
        }
      } else {
        var news := Slice0(head, MAX_NEWS);
        assert [] + news == news && news != [];
        assert ScanSelectors(groups, found, pick) == (news, true);
        assert FirstYieldAt(groups, news, pick, 0);
      }
    }
  }

  /** The fallback filter on a link's trimmed text and `href`. */
  predicate KeepFallbackLink(href: Option<string>, text: string) {
    && Truthy(href) && text != ""
    && 20 < |text| < 200
    && (Contains(href.value, "/news/") || Contains(href.value, "/business/"))
    && !Contains(href.value, "#") && !Contains(href.value, "mailto:")
  }

  /** A kept link's headline: its text as title and summary, its link made
      absolute, stamped now. */
  function FallbackItem(link: Link, nowIso: string): (x: RawNews)
    requires KeepFallbackLink(link.href, Trim(link.text))
    ensures Collected(x)
    ensures 20 < |x.title| < 200 && x.summary == x.title
    ensures Contains(x.url, "/news/") || Contains(x.url, "/business/")
    ensures x.imageUrl.None? && x.publishedAt == nowIso
  {
    var href := link.href.value;
    AbsoluteHrefKeepsSection(href);
    var text := Trim(link.text);
    RawNews(text, text, AbsoluteHref(href), nowIso, None)
  }

  /** Putting the origin in front keeps the section a link points into. */
  lemma AbsoluteHrefKeepsSection(href: string)
    requires Contains(href, "/news/") || Contains(href, "/business/")
    ensures Contains(AbsoluteHref(href), "/news/") || Contains(AbsoluteHref(href), "/business/")
  {
    if StartsWith(href, "/") {
      if Contains(href, "/news/") {
        ContainsAfterPrefix(BBC_ORIGIN, href, "/news/");
      } else {
        ContainsAfterPrefix(BBC_ORIGIN, href, "/business/");
      }
    }
  }

  /** A link's headline, if the fallback keeps the link. */
  function LinkHeadline(nowIso: string): Link -> Option<RawNews> {
    (link: Link) =>
      if KeepFallbackLink(link.href, Trim(link.text)) then Some(FallbackItem(link, nowIso)) else None
  }

  /** Everything the scraper collects from a page, before de-duplication. */
  function Scrape(page: Page, nowIso: string): seq<RawNews> {
    var (news, found) := ScanSelectors(page.selectorMatches, false, CardHeadline(nowIso));
    if found then news else Scan(page.links, [], LinkHeadline(nowIso))
  }

  /** When some selector matched, the scraped headlines are the first ten of
      the first selector whose cards yield any (none if no selector's do);
      when no selector matched anything, they are the first ten headlines of
      the kept links. Every one of them is collected. */
  lemma ScrapeMeaning(page: Page, nowIso: string)
    ensures var groups := page.selectorMatches;
            var r := Scrape(page, nowIso);
            && |r| <= MAX_NEWS
            && (forall i :: 0 <= i < |r| ==> Collected(r[i]))
            && ((exists i :: 0 <= i < |groups| && groups[i] != []) ==>
                  && (r == [] <==> forall i :: 0 <= i < |groups| ==> Headlines(groups[i], CardHeadline(nowIso)) == [])
                  && (r != [] ==> FirstYield(groups, r, CardHeadline(nowIso))))
            && ((forall i :: 0 <= i < |groups| ==> groups[i] == []) ==>
                  r == Slice0(Headlines(page.links, LinkHeadline(nowIso)), MAX_NEWS))
  {
    var groups := page.selectorMatches;
    var pick := CardHeadline(nowIso);
    ScanSelectorsMeaning(groups, false, pick);
    ScanMeaning(page.links, [], LinkHeadline(nowIso));
    CardHeadlineCollected(nowIso);
    LinkHeadlineCollected(nowIso);
    HeadlinesSatisfy(page.links, LinkHeadline(nowIso), Collected);
    var (news, found) := ScanSelectors(groups, false, pick);
    if news != [] {
      var i :| FirstYieldAt(groups, news, pick, i);
      HeadlinesSatisfy(groups[i], pick, Collected);
    }
  }

  lemma CardHeadlineCollected(nowIso: string)
    ensures forall c :: CardHeadline(nowIso)(c).Some? ==> Collected(CardHeadline(nowIso)(c).value)
  {
    forall c | CardHeadline(nowIso)(c).Some?
      ensures Collected(CardHeadline(nowIso)(c).value)
    {
      ExtractCardMeaning(c, nowIso);
    }
  }

  lemma LinkHeadlineCollected(nowIso: string)
    ensures forall l :: LinkHeadline(nowIso)(l).Some? ==> Collected(LinkHeadline(nowIso)(l).value)
  {
  }

  /** Two headlines clash when they share a title or a link. */
  predicate Clash(a: RawNews, b: RawNews) {
    a.title == b.title || a.url == b.url
  }

  function NoClash(a: RawNews, b: RawNews): bool {
    !Clash(a, b)
  }

  /** Position `i` holds the first headline of its title and of its link. */
  predicate FirstOccurrence(s: seq<RawNews>, i: nat)
    requires i < |s|
  {
    forall j :: 0 <= j < i ==> !Clash(s[j], s[i])
  }

  /** The filter test as written: `array.findIndex(other => other.title ===
      item.title || other.url === item.url) === index`. */
  predicate KeptByFindIndex(s: seq<RawNews>, i: nat)
    requires i < |s|
  {
    FindIndex(s, (o: RawNews) => Clash(o, s[i])) == i
  }

  /** The `findIndex` test keeps a headline exactly when no earlier headline
      shares its title or its link. */
  lemma KeptByFindIndexIff(s: seq<RawNews>, i: nat)
    requires i < |s|
    ensures KeptByFindIndex(s, i) <==> FirstOccurrence(s, i)
  {
  }

  /** The positions the `findIndex` test keeps. */
  function KeptPositions(s: seq<RawNews>): nat -> bool {
    (i: nat) => i < |s| && KeptByFindIndex(s, i)
  }

  /** The de-duplicating filter as written: the headlines whose position
      passes the `findIndex` test, in order. The result is the first
      headline of every title and link, and no two kept headlines share a
      title or a link. */
  function Dedup(s: seq<RawNews>): (r: seq<RawNews>)
    ensures |r| <= |s|
    ensures Separated(r, NoClash)
    ensures forall x :: x in r ==> exists i :: 0 <= i < |s| && s[i] == x && FirstOccurrence(s, i)
    ensures forall i :: 0 <= i < |s| && FirstOccurrence(s, i) ==> s[i] in r
  {
    var keep := KeptPositions(s);
    assert forall i :: 0 <= i < |s| ==> (keep(i) <==> FirstOccurrence(s, i)) by {
      forall i | 0 <= i < |s|
        ensures keep(i) <==> FirstOccurrence(s, i)
      {
        KeptByFindIndexIff(s, i);
      }
    }
    KeepPositionsMembers(s, |s|, keep);
    KeepPositionsSeparated(s, |s|, keep, NoClash);
    KeepPositions(s, |s|, keep)
  }

  function PublishedTime(parse: string -> Option<int>): RawNews -> Option<int> {
    (x: RawNews) => parse(x.publishedAt)
  }

  /** De-duplicate, order newest first, keep ten: the result holds the ten
      newest of the de-duplicated headlines (all of them when there are
      fewer), newest first. */
  function SelectNewest(news: seq<RawNews>, parse: string -> Option<int>): (r: seq<RawNews>)
    ensures |r| <= MAX_NEWS && |r| == SliceEnd(|Dedup(news)|, MAX_NEWS)
    ensures SortedDesc(r, PublishedTime(parse))
    ensures NewestOf(r, Dedup(news), PublishedTime(parse))
    ensures Separated(r, NoClash)
    ensures forall x :: x in r ==> exists i :: 0 <= i < |news| && news[i] == x && FirstOccurrence(news, i)
  {
    var d := Dedup(news);
    var sorted := SortDesc(d, PublishedTime(parse));
    assert Symmetric(NoClash);
    SortKeepsSeparated(d, PublishedTime(parse), NoClash);
    SliceKeepsSeparated(sorted, MAX_NEWS, NoClash);
    SliceKeepsSorted(sorted, MAX_NEWS, PublishedTime(parse));
    var r := Slice0(sorted, MAX_NEWS);
    SliceOfSortedIsNewest(sorted, MAX_NEWS, PublishedTime(parse));
    NewestOfPermutation(r, sorted, d, PublishedTime(parse));
    forall x | x in r
      ensures x in d
    {
      assert x in multiset(sorted);
    }
    r
  }

  /** `fetchBBCBusinessNews` for a page that was fetched and parsed (`None`
      when the request failed, where the source falls back to its built-in
      sample headlines): the newest ten distinct headlines of the page. */
  function FetchBbcBusinessNews(page: Option<Page>, nowIso: string, parse: string -> Option<int>): (r: Option<seq<RawNews>>)
    ensures page.None? <==> r.None?
    ensures page.Some? ==> r == Some(SelectNewest(Scrape(page.value, nowIso), parse))
    ensures r.Some? ==> |r.value| <= MAX_NEWS && SortedDesc(r.value, PublishedTime(parse)) && Separated(r.value, NoClash)
    ensures r.Some? ==> forall x :: x in r.value ==> Collected(x)
  {
    match page
    case None => None
    case Some(p) =>
      var scraped := Scrape(p, nowIso);
      ScrapeMeaning(p, nowIso);
      var r := SelectNewest(scraped, parse);
      forall x | x in r
        ensures Collected(x)
      {
        var i :| 0 <= i < |scraped| && scraped[i] == x && FirstOccurrence(scraped, i);
      }
      Some(r)
  }

  /** `validateNewsItem`. */
  predicate ValidateNewsItem(item: RawNews, isUrl: string -> bool, parse: string -> Option<int>) {
    if item.title == "" || item.url == "" || item.publishedAt == "" then false
    else if |item.title| < 10 || |item.title| > 300 then false
    else if !isUrl(item.url) then false
    else parse(item.publishedAt).Some?
  }

  /** An item is rejected when a required field is empty, when its title is
      shorter than 10 or longer than 300 characters, when its link is not a
      URL, or when its date does not parse; otherwise it is accepted. */
  lemma ValidateNewsItemMeaning(item: RawNews, isUrl: string -> bool, parse: string -> Option<int>)
    ensures ValidateNewsItem(item, isUrl, parse) <==>
              && item.url != "" && item.publishedAt != ""
              && 10 <= |item.title| <= 300
              && isUrl(item.url) && parse(item.publishedAt).Some?
  {
  }

  /** Every scraped headline passes the field and title-length checks of
      validation; its date is non-empty whenever the current time is. */
  lemma ScrapedTitlesPassLengthCheck(page: Page, nowIso: string, x: RawNews)
    requires x in Scrape(page, nowIso)
    ensures x.title != "" && x.url != "" && 10 <= |x.title| <= 300
    ensures nowIso != "" ==> x.publishedAt != ""
  {
    ScrapeMeaning(page, nowIso);
    if nowIso != "" {
      var groups := page.selectorMatches;
      var r := Scrape(page, nowIso);
      CardHeadlineDated(nowIso);
      if exists i :: 0 <= i < |groups| && groups[i] != [] {
        var i :| FirstYieldAt(groups, r, CardHeadline(nowIso), i);
        HeadlinesSatisfy(groups[i], CardHeadline(nowIso), Dated);
      } else {
        HeadlinesSatisfy(page.links, LinkHeadline(nowIso), Dated);
      }
    }
  }

  /** A headline with a date. */
  predicate Dated(x: RawNews) {
    x.publishedAt != ""
  }

  lemma CardHeadlineDated(nowIso: string)
    requires nowIso != ""
    ensures forall c :: CardHeadline(nowIso)(c).Some? ==> Dated(CardHeadline(nowIso)(c).value)
  {
    forall c | CardHeadline(nowIso)(c).Some?
      ensures Dated(CardHeadline(nowIso)(c).value)
    {
      ExtractCardMeaning(c, nowIso);
    }
  }

  /** `cleanNewsItem`. */
  function CleanNewsItem(item: RawNews): RawNews {
    RawNews(
      title := Collapse(Trim(item.title)),
      summary := Collapse(Trim(OrElse(item.summary, item.title))),
      url := Trim(item.url),
      publishedAt := item.publishedAt,
      imageUrl := match item.imageUrl
        case None => None
        case Some(u) => Some(Trim(u)))
  }

  /** A cleaned item has title and summary without whitespace at the ends or
      whitespace runs, with the visible characters of the title and of the
      summary (the title when the summary is empty); a trimmed link and image;
      the date unchanged. */
  lemma CleanNewsItemMeaning(item: RawNews)
    ensures var c := CleanNewsItem(item);
            && Trimmed(c.title) && Collapsed(c.title) && Visible(c.title) == Visible(item.title)
            && Trimmed(c.summary) && Collapsed(c.summary)
            && (item.summary != "" ==> Visible(c.summary) == Visible(item.summary))
            && (item.summary == "" ==> c.summary == c.title)
            && Trimmed(c.url) && Visible(c.url) == Visible(item.url)
            && c.publishedAt == item.publishedAt
            && (c.imageUrl.Some? <==> item.imageUrl.Some?)
            && (c.imageUrl.Some? ==> Trimmed(c.imageUrl.value))
  {
    CollapseKeepsTrimmed(Trim(item.title));
    CollapseKeepsTrimmed(Trim(OrElse(item.summary, item.title)));
    CollapseIsCollapsed(Trim(item.title));
    CollapseIsCollapsed(Trim(OrElse(item.summary, item.title)));
    CollapseKeepsVisible(Trim(item.title));
    CollapseKeepsVisible(Trim(OrElse(item.summary, item.title)));
    VisibleOfTrim(item.title);
    VisibleOfTrim(item.summary);
    VisibleOfTrim(item.url);
  }

  /** Trimming and collapsing a text a second time changes nothing, and
      leaves it empty exactly when the first pass did. */
  lemma CleanTextIdempotent(s: string)
    ensures Collapse(Trim(Collapse(Trim(s)))) == Collapse(Trim(s))
    ensures Collapse(Trim(s)) == [] <==> Trim(s) == []
  {
    CollapseKeepsTrimmed(Trim(s));
    TrimOfTrimmed(Collapse(Trim(s)));
    CollapseIdempotent(Trim(s));
  }

  /** Cleaning twice is cleaning once, except for a summary that is
      non-empty but blank (see the next lemma). */
  lemma CleanNewsItemIdempotent(item: RawNews)
    requires item.summary == "" || Trim(item.summary) != ""
    ensures CleanNewsItem(CleanNewsItem(item)) == CleanNewsItem(item)
  {
    var c := CleanNewsItem(item);
    CleanTextIdempotent(item.title);
    CleanTextIdempotent(OrElse(item.summary, item.title));
    TrimIdempotent(item.url);
    if item.imageUrl.Some? {
      TrimIdempotent(item.imageUrl.value);
    }
    assert c.title == Collapse(Trim(item.title));
    assert CleanNewsItem(c).title == c.title;
    if item.summary == "" {
      assert c.summary == c.title;
    } else {
      assert c.summary != "";
    }
    assert CleanNewsItem(c).summary == c.summary;
  }

  lemma TrimBlank()
    ensures Trim("   ") == ""
  {
    SpaceIsWhitespace();
    assert AllWhitespace("   ");
    TrimOfWhitespace("   ");
  }

  /** A blank but non-empty summary is not replaced by the title: it cleans
      to an empty summary, and only a second cleaning fills in the title. */
  lemma BlankSummaryCleansToEmpty(title: string, url: string, date: string)
    requires Trim(title) != ""
    ensures var item := RawNews(title, "   ", url, date, None);
            && CleanNewsItem(item).summary == ""
            && CleanNewsItem(CleanNewsItem(item)).summary == Collapse(Trim(title))
            && CleanNewsItem(CleanNewsItem(item)).summary != ""
  {
    TrimBlank();
    CleanTextIdempotent(title);
    var c := CleanNewsItem(RawNews(title, "   ", url, date, None));
    assert c.summary == "";
    assert c.title == Collapse(Trim(title));
  }
}
