/** The headline translator: headlines go to the language model in batches of
    three, each reply is read into one translation per headline, and every
    headline comes out as a translated item in its original position, with an
    untranslated fallback wherever the model or its reply fails. Also the
    merge that fills missing translations into existing items.

    The model is an input: `replies(i)` is what the model answered for the
    batch starting at position `i`, already decoded from JSON; `clientFails`
    says whether setting up the client failed; `stamp` is the clock reading
    the ids carry. */
module NewsTranslator {
  import opened Wrappers
  import opened Text
  import opened Seqs
  import opened NewsTypes

  const BATCH_SIZE: nat := 3
  const CATEGORY: string := "business"
  const ENGLISH_MARK: string := "[英文] "

  /** One element of the decoded `translations` array: `null`, or anything
      else, of which only the `titleChinese` and `summaryChinese` string
      properties are read (`None` when absent). */
  datatype JsonEntry = NullEntry | Entry(titleChinese: Option<string>, summaryChinese: Option<string>)

  /** The decoded reply: not JSON, or JSON without a `translations` array, or
      the array. */
  datatype Parsed = NotJson | NoTranslationsArray | TranslationsArray(entries: seq<JsonEntry>)

  datatype BatchReply = ModelFailed | Replied(parsed: Parsed)

  datatype Translation = Translation(titleChinese: string, summaryChinese: string)

  /** The translations used when the reply cannot be read at all. */
  function Placeholders(n: nat): (r: seq<Translation>)
    ensures |r| == n
    ensures forall i :: 0 <= i < n ==>
              r[i] == Translation("商业新闻标题 " + NatToString(i + 1), "商业新闻摘要 " + NatToString(i + 1))
  {
    seq(n, i requires 0 <= i < n =>
      Translation("商业新闻标题 " + NatToString(i + 1), "商业新闻摘要 " + NatToString(i + 1)))
  }

  /** One array entry as a translation: a missing or empty field becomes a
      numbered failure marker. */
  function ReadEntry(e: JsonEntry, i: nat): (t: Translation)
    requires e.Entry?
    ensures Truthy(e.titleChinese) ==> t.titleChinese == e.titleChinese.value
    ensures !Truthy(e.titleChinese) ==> t.titleChinese == "翻译失败的标题 " + NatToString(i + 1)
    ensures Truthy(e.summaryChinese) ==> t.summaryChinese == e.summaryChinese.value
    ensures !Truthy(e.summaryChinese) ==> t.summaryChinese == "翻译失败的摘要 " + NatToString(i + 1)
  {
    Translation(
      if Truthy(e.titleChinese) then e.titleChinese.value else "翻译失败的标题 " + NatToString(i + 1),
      if Truthy(e.summaryChinese) then e.summaryChinese.value else "翻译失败的摘要 " + NatToString(i + 1))
  }

  /** `parseTranslationResponse`: the first `expectedCount` entries, each read
      with failure markers; placeholders for every position when the reply is
      not a translations array or one of those entries is `null` (reading a
      property of `null` throws). */
  function ParseTranslationResponse(reply: Parsed, expectedCount: nat): (r: seq<Translation>)
    ensures |r| <= expectedCount
    ensures forall i :: 0 <= i < |r| ==> r[i].titleChinese != "" && r[i].summaryChinese != ""
    ensures !reply.TranslationsArray? ==> r == Placeholders(expectedCount)
    ensures reply.TranslationsArray? ==>
              var taken := Slice0(reply.entries, expectedCount);
              if exists i :: 0 <= i < |taken| && taken[i].NullEntry? then r == Placeholders(expectedCount)
              else |r| == |taken| && forall i :: 0 <= i < |r| ==> r[i] == ReadEntry(taken[i], i)
  {
    if !reply.TranslationsArray? then Placeholders(expectedCount)
    else
      var taken := Slice0(reply.entries, expectedCount);
      if exists i :: 0 <= i < |taken| && taken[i].NullEntry? then Placeholders(expectedCount)
      else seq(|taken|, i requires 0 <= i < |taken| => ReadEntry(taken[i], i))
  }

  /** A reply with an entry for every headline, each with both translations,
      is read as exactly those translations. */
  lemma WellFormedReplyIsUsedVerbatim(entries: seq<JsonEntry>, expected: seq<Translation>)
    requires |entries| >= |expected|
    requires forall i :: 0 <= i < |expected| ==>
               entries[i] == Entry(Some(expected[i].titleChinese), Some(expected[i].summaryChinese))
    requires forall i :: 0 <= i < |expected| ==> expected[i].titleChinese != "" && expected[i].summaryChinese != ""
    ensures ParseTranslationResponse(TranslationsArray(entries), |expected|) == expected
  {
    var taken := Slice0(entries, |expected|);
    assert |taken| == |expected|;
    assert forall i :: 0 <= i < |taken| ==> taken[i] == entries[i];
  }

  /** The id, position and carried-over fields every output item has for the
      headline at `position`. */
  predicate Corresponds(item: RawNews, out: TranslatedNews, position: nat, stamp: int) {
    && out.title == item.title
    && out.summary == OrElse(item.summary, item.title)
    && out.url == item.url
    && out.publishedAt == item.publishedAt
    && out.imageUrl == item.imageUrl
    && out.category == CATEGORY
    && out.titleChinese.Some? && out.summaryChinese.Some?
    && BbcIdParts(out.id) == Some((stamp, position))
  }

  /** The clock reading and position of a translated item's id. */
  function BbcIdParts(id: ItemId): (r: Option<(int, nat)>)
    ensures r.Some? <==> !id.TweetId?
  {
    match id
    case TweetId(_, _) => None
    case BbcId(stamp, index) => Some((stamp, index))
    case BbcFallbackId(stamp, index) => Some((stamp, index))
  }

  /** One headline of a batch with its translation, if the reply had one for
      it: the translation's fields where present, the English text otherwise. */
  function TranslateItem(item: RawNews, t: Option<Translation>, position: nat, stamp: int): (out: TranslatedNews)
    ensures Corresponds(item, out, position, stamp) && out.id == BbcId(stamp, position)
    ensures t.Some? && t.value.titleChinese != "" ==> out.titleChinese == Some(t.value.titleChinese)
    ensures t.Some? && t.value.summaryChinese != "" ==> out.summaryChinese == Some(t.value.summaryChinese)
    ensures t.None? ==> out.titleChinese == Some(item.title)
                        && out.summaryChinese == Some(OrElse(item.summary, item.title))
  {
    var titleZh := if t.Some? then t.value.titleChinese else "";
    var summaryZh := if t.Some? then t.value.summaryChinese else "";
    TranslatedNews(
      id := BbcId(stamp, position),
      title := item.title,
      titleChinese := Some(OrElse(titleZh, item.title)),
      summary := OrElse(item.summary, item.title),
      summaryChinese := Some(OrElse(summaryZh, OrElse(item.summary, item.title))),
      url := item.url,
      publishedAt := item.publishedAt,
      imageUrl := item.imageUrl,
      category := CATEGORY)
  }

  /** `translateBatch` after the model answered: headline `k` of the batch
      takes translation `k`, if there is one. */
  function TranslateBatch(batch: seq<RawNews>, translations: seq<Translation>, start: nat, stamp: int): (r: seq<TranslatedNews>)
    ensures |r| == |batch|
    ensures forall k :: 0 <= k < |r| ==>
              r[k] == TranslateItem(batch[k], if k < |translations| then Some(translations[k]) else None, start + k, stamp)
  {
    seq(|batch|, k requires 0 <= k < |batch| =>
      TranslateItem(batch[k], if k < |translations| then Some(translations[k]) else None, start + k, stamp))
  }

  /** `createFallbackNewsItem`: the English text marked as untranslated. */
  function CreateFallbackNewsItem(item: RawNews, position: nat, stamp: int): (out: TranslatedNews)
    ensures Corresponds(item, out, position, stamp) && out.id == BbcFallbackId(stamp, position)
    ensures out.titleChinese == Some(ENGLISH_MARK + item.title)
    ensures out.summaryChinese == Some(ENGLISH_MARK + OrElse(item.summary, item.title))
  {
    TranslatedNews(
      id := BbcFallbackId(stamp, position),
      title := item.title,
      titleChinese := Some(ENGLISH_MARK + item.title),
      summary := OrElse(item.summary, item.title),
      summaryChinese := Some(ENGLISH_MARK + OrElse(item.summary, item.title)),
      url := item.url,
      publishedAt := item.publishedAt,
      imageUrl := item.imageUrl,
      category := CATEGORY)
  }

  /** Fallback items for the headlines of `batch`, which starts at `start`. */
  function FallbackBatch(batch: seq<RawNews>, start: nat, stamp: int): (r: seq<TranslatedNews>)
    ensures |r| == |batch|
    ensures forall k :: 0 <= k < |r| ==> r[k] == CreateFallbackNewsItem(batch[k], start + k, stamp)
  {
    seq(|batch|, k requires 0 <= k < |batch| => CreateFallbackNewsItem(batch[k], start + k, stamp))
  }

  /** How many headlines the batch starting at `i` holds in a run over `n`:
      three, fewer for the last batch, none past the end. */
  function BatchLength(n: nat, i: nat): nat {
    if i + BATCH_SIZE <= n then BATCH_SIZE else if i <= n then n - i else 0
  }

  /** The batch of at most three headlines that starts at position `i`. */
  function BatchAt(items: seq<RawNews>, i: nat): (batch: seq<RawNews>)
    requires i < |items|
    ensures |batch| == BatchLength(|items|, i) && 1 <= |batch|
    ensures forall k :: 0 <= k < |batch| ==> batch[k] == items[i + k]
  {
    if i + BATCH_SIZE <= |items| then items[i..i + BATCH_SIZE] else items[i..]
  }

  /** What the batch at position `i` turns into: fallback items when the
      model call failed, otherwise the headlines with the reply's translations. */
  function BatchOutput(items: seq<RawNews>, i: nat, replies: nat -> BatchReply, stamp: int): (out: seq<TranslatedNews>)
    requires i < |items|
    ensures |out| == BatchLength(|items|, i)
  {
    var batch := BatchAt(items, i);
    match replies(i)
    case ModelFailed => FallbackBatch(batch, i, stamp)
    case Replied(p) => TranslateBatch(batch, ParseTranslationResponse(p, |batch|), i, stamp)
  }

  /** Every item of a batch's output belongs to the headline at its position. */
  lemma BatchOutputCorresponds(items: seq<RawNews>, i: nat, replies: nat -> BatchReply, stamp: int, k: nat)
    requires i < |items| && k < BatchLength(|items|, i)
    ensures i + k < |items|
    ensures Corresponds(items[i + k], BatchOutput(items, i, replies, stamp)[k], i + k, stamp)
  {
  }

  /** The per-batch outputs of a run, by batch start. */
  function BatchOutputs(items: seq<RawNews>, replies: nat -> BatchReply, stamp: int): nat -> seq<TranslatedNews> {
    (i: nat) => if i < |items| then BatchOutput(items, i, replies, stamp) else []
  }

  /** The batch loop over `n` headlines from position `i` on: the output of
      the batch at `i`, then the rest, one batch of three at a time. */
  function Batched(n: nat, i: nat, out: nat -> seq<TranslatedNews>): seq<TranslatedNews>
    decreases n - i
  {
    if i >= n then [] else out(i) + Batched(n, i + BATCH_SIZE, out)
  }

  /** When each batch's output has the batch's length and relates each item
      to its position by `P`, so does the whole loop. */
  lemma {:induction false} BatchedShape(n: nat, i: nat, out: nat -> seq<TranslatedNews>, P: (nat, TranslatedNews) -> bool)
    requires i <= n
    requires forall j :: i <= j < n ==> |out(j)| == BatchLength(n, j)
    requires forall j, m :: i <= j < n && 0 <= m < |out(j)| ==> P(j + m, out(j)[m])
    ensures |Batched(n, i, out)| == n - i
    ensures forall k :: 0 <= k < n - i ==> P(i + k, Batched(n, i, out)[k])
    decreases n - i
  {
    if i < n {
      var rest := Batched(n, i + 3, out);
      if i + 3 < n {
        BatchedShape(n, i + 3, out, P);
      }
      assert |rest| == n - i - |out(i)|;
      forall k | 0 <= k < n - i
        ensures P(i + k, Batched(n, i, out)[k])
      {
        if k >= |out(i)| {
          assert Batched(n, i, out)[k] == rest[k - 3];
        }
      }
    }
  }

  /** Item `off` of batch `a` sits at position `3a + off` of the loop's output. */
  lemma {:induction false} BatchedAt(n: nat, b: nat, out: nat -> seq<TranslatedNews>, a: nat, off: nat)
    requires b <= a && off < 3 && 3 * a + off < n
    requires forall j :: 3 * b <= j < n ==> |out(j)| == BatchLength(n, j)
    ensures off < |out(3 * a)|
    ensures 3 * (a - b) + off < |Batched(n, 3 * b, out)|
    ensures Batched(n, 3 * b, out)[3 * (a - b) + off] == out(3 * a)[off]
    decreases a - b
  {
    BatchedShape(n, 3 * b, out, (k: nat, x: TranslatedNews) => true);
    if a > b {
      BatchedAt(n, b + 1, out, a, off);
      assert |out(3 * b)| == 3;
    }
  }

  /** Fallback items for every headline, by position. */
  function AllFallback(items: seq<RawNews>, stamp: int): (r: seq<TranslatedNews>)
    ensures |r| == |items|
    ensures forall k :: 0 <= k < |r| ==> r[k] == CreateFallbackNewsItem(items[k], k, stamp)
  {
    seq(|items|, k requires 0 <= k < |items| => CreateFallbackNewsItem(items[k], k, stamp))
  }

  /** What every output item of a run over `items` satisfies at its position. */
  function CorrespondsAt(items: seq<RawNews>, stamp: int): (nat, TranslatedNews) -> bool {
    (k: nat, x: TranslatedNews) => k < |items| && Corresponds(items[k], x, k, stamp)
  }

  /** `translateNewsWithGemini`: one output item per headline, at the
      headline's position, with its id carrying that position. */
  function TranslateNewsWithGemini(items: seq<RawNews>, clientFails: bool, replies: nat -> BatchReply, stamp: int): (r: seq<TranslatedNews>)
    ensures |r| == |items|
    ensures forall k :: 0 <= k < |r| ==> Corresponds(items[k], r[k], k, stamp)
    ensures clientFails ==> r == AllFallback(items, stamp)
  {
    if clientFails then AllFallback(items, stamp)
    else
      var out := BatchOutputs(items, replies, stamp);
      var P := CorrespondsAt(items, stamp);
      assert forall j, m :: 0 <= j < |items| && 0 <= m < |out(j)| ==> P(j + m, out(j)[m]) by {
        forall j, m | 0 <= j < |items| && 0 <= m < |out(j)|
          ensures P(j + m, out(j)[m])
        {
          BatchOutputCorresponds(items, j, replies, stamp, m);
        }
      }
      BatchedShape(|items|, 0, out, P);
      Batched(|items|, 0, out)
  }

  /** When the model fails on every batch, the batch loop gives exactly what a
      failure of the whole process gives. */
  lemma {:induction false} FailingBatchesMatchWholeFallback(items: seq<RawNews>, i: nat, replies: nat -> BatchReply, stamp: int)
    requires i <= |items|
    requires forall j :: replies(j) == ModelFailed
    ensures Batched(|items|, i, BatchOutputs(items, replies, stamp)) == AllFallback(items, stamp)[i..]
    decreases |items| - i
  {
    if i < |items| {
      var out := BatchOutputs(items, replies, stamp);
      var all := AllFallback(items, stamp);
      var len := BatchLength(|items|, i);
      if i + 3 < |items| {
        FailingBatchesMatchWholeFallback(items, i + 3, replies, stamp);
      } else {
        assert all[i + len..] == [];
      }
      assert out(i) == FallbackBatch(BatchAt(items, i), i, stamp);
      assert all[i..] == all[i..i + len] + all[i + len..];
      assert out(i) == all[i..i + len];
    }
  }

  lemma AllBatchesFailingIsWholeFallback(items: seq<RawNews>, replies: nat -> BatchReply, stamp: int)
    requires forall j :: replies(j) == ModelFailed
    ensures TranslateNewsWithGemini(items, false, replies, stamp) == TranslateNewsWithGemini(items, true, replies, stamp)
  {
    FailingBatchesMatchWholeFallback(items, 0, replies, stamp);
  }

  /** The translations read from the model's reply to the batch at `start`. */
  function BatchTranslations(items: seq<RawNews>, start: nat, replies: nat -> BatchReply): seq<Translation>
    requires start < |items| && replies(start).Replied?
  {
    ParseTranslationResponse(replies(start).parsed, |BatchAt(items, start)|)
  }

  /** Within an answered batch, headline `off` takes translation `off`. */
  lemma AnsweredBatchUsesTranslation(items: seq<RawNews>, i: nat, replies: nat -> BatchReply, stamp: int, off: nat)
    requires i < |items| && replies(i).Replied?
    requires off < |BatchTranslations(items, i, replies)|
    ensures off < |BatchOutput(items, i, replies, stamp)| && i + off < |items|
    ensures BatchOutput(items, i, replies, stamp)[off]
            == TranslateItem(items[i + off], Some(BatchTranslations(items, i, replies)[off]), i + off, stamp)
  {
  }

  /** Headline `3a + off` of a run comes out as item `off` of the batch that
      starts at `3a`. */
  lemma HeadlineFromItsBatch(items: seq<RawNews>, replies: nat -> BatchReply, stamp: int, a: nat, off: nat)
    requires 3 * a + off < |items| && off < 3
    ensures off < |BatchOutput(items, 3 * a, replies, stamp)|
    ensures TranslateNewsWithGemini(items, false, replies, stamp)[3 * a + off]
            == BatchOutput(items, 3 * a, replies, stamp)[off]
  {
    var out := BatchOutputs(items, replies, stamp);
    BatchedAt(|items|, 0, out, a, off);
  }

  /** When the model answered the batch of headline `3a + off` with a
      translation for it, the headline gets exactly that translation. */
  lemma AnsweredHeadlineIsTranslated(items: seq<RawNews>, replies: nat -> BatchReply, stamp: int, a: nat, off: nat)
    requires 3 * a + off < |items| && replies(3 * a).Replied?
    requires off < |BatchTranslations(items, 3 * a, replies)|
    ensures TranslateNewsWithGemini(items, false, replies, stamp)[3 * a + off]
            == TranslateItem(items[3 * a + off], Some(BatchTranslations(items, 3 * a, replies)[off]), 3 * a + off, stamp)
  {
    AnsweredBatchUsesTranslation(items, 3 * a, replies, stamp, off);
    HeadlineFromItsBatch(items, replies, stamp, a, off);
  }

  /** When the model call for the batch of headline `3a + off` failed, the
      headline comes out as its untranslated fallback, while the other
      batches are unaffected. */
  lemma FailedBatchFallsBack(items: seq<RawNews>, replies: nat -> BatchReply, stamp: int, a: nat, off: nat)
    requires 3 * a + off < |items| && off < 3 && replies(3 * a) == ModelFailed
    ensures TranslateNewsWithGemini(items, false, replies, stamp)[3 * a + off]
            == CreateFallbackNewsItem(items[3 * a + off], 3 * a + off, stamp)
  {
    HeadlineFromItsBatch(items, replies, stamp, a, off);
  }

  /** When the model answered the batch of headline `3a + off` with too few
      translations to reach it, the headline keeps its English title and
      summary as its Chinese ones. */
  lemma ShortReplyKeepsEnglish(items: seq<RawNews>, replies: nat -> BatchReply, stamp: int, a: nat, off: nat)
    requires 3 * a + off < |items| && off < 3 && replies(3 * a).Replied?
    requires off >= |BatchTranslations(items, 3 * a, replies)|
    ensures var x := items[3 * a + off];
            var y := TranslateNewsWithGemini(items, false, replies, stamp)[3 * a + off];
            y == TranslateItem(x, None, 3 * a + off, stamp)
            && y.titleChinese == Some(x.title) && y.summaryChinese == Some(OrElse(x.summary, x.title))
  {
    HeadlineFromItsBatch(items, replies, stamp, a, off);
  }

  /** `translateSingleNews`: the one-element run; its first item always
      exists, so the error path that falls back is never taken. */
  function TranslateSingleNews(item: RawNews, clientFails: bool, replies: nat -> BatchReply, stamp: int): (out: TranslatedNews)
    ensures Corresponds(item, out, 0, stamp)
  {
    TranslateNewsWithGemini([item], clientFails, replies, stamp)[0]
  }

  /** An item lacks a translation when either Chinese field is missing or empty. */
  predicate NeedsTranslation(x: TranslatedNews) {
    !Truthy(x.titleChinese) || !Truthy(x.summaryChinese)
  }

  function ToRaw(x: TranslatedNews): RawNews {
    RawNews(x.title, x.summary, x.url, x.publishedAt, x.imageUrl)
  }

  function ToRawAll(xs: seq<TranslatedNews>): (r: seq<RawNews>)
    ensures |r| == |xs| && forall k :: 0 <= k < |r| ==> r[k] == ToRaw(xs[k])
  {
    seq(|xs|, k requires 0 <= k < |xs| => ToRaw(xs[k]))
  }

  /** The position of the first item of `xs` with link `url`. */
  function FirstWithUrl<T>(xs: seq<T>, url: string, link: T -> string): (j: int)
    ensures -1 <= j < |xs|
    ensures j == -1 <==> forall i :: 0 <= i < |xs| ==> link(xs[i]) != url
    ensures 0 <= j ==> link(xs[j]) == url && forall i :: 0 <= i < j ==> link(xs[i]) != url
  {
    FindIndex(xs, (x: T) => link(x) == url)
  }

  function TranslatedLink(x: TranslatedNews): string {
    x.url
  }

  /** `translatedItems.find(t => t.url === url)`. */
  function FindByUrl(ts: seq<TranslatedNews>, url: string): (r: Option<TranslatedNews>)
    ensures r.None? <==> forall k :: 0 <= k < |ts| ==> ts[k].url != url
    ensures r.Some? ==> exists k :: 0 <= k < |ts| && ts[k] == r.value && ts[k].url == url
                                    && forall j :: 0 <= j < k ==> ts[j].url != url
  {
    var k := FirstWithUrl(ts, url, TranslatedLink);
    if k < 0 then None else Some(ts[k])
  }

  /** Only the Chinese fields can differ between `x` and `y`. */
  predicate SameExceptChinese(x: TranslatedNews, y: TranslatedNews) {
    x == y.(titleChinese := x.titleChinese, summaryChinese := x.summaryChinese)
  }

  /** Every item of `ts` carries both Chinese fields. */
  predicate AllHaveChinese(ts: seq<TranslatedNews>) {
    forall k :: 0 <= k < |ts| ==> ts[k].titleChinese.Some? && ts[k].summaryChinese.Some?
  }

  /** The merged item: a translated item is kept; one lacking a translation
      takes both Chinese fields of the first translated item with its link,
      if there is one. */
  function MergeItem(x: TranslatedNews, ts: seq<TranslatedNews>): (r: TranslatedNews)
    ensures SameExceptChinese(r, x)
    ensures !NeedsTranslation(x) ==> r == x
    ensures NeedsTranslation(x) && FindByUrl(ts, x.url).Some? ==>
              r.titleChinese == FindByUrl(ts, x.url).value.titleChinese
              && r.summaryChinese == FindByUrl(ts, x.url).value.summaryChinese
    ensures NeedsTranslation(x) && FindByUrl(ts, x.url).None? ==> r == x
  {
    if NeedsTranslation(x) then
      match FindByUrl(ts, x.url)
      case Some(t) => x.(titleChinese := t.titleChinese, summaryChinese := t.summaryChinese)
      case None => x
    else x
  }

  function MergeTranslations(items: seq<TranslatedNews>, ts: seq<TranslatedNews>): (r: seq<TranslatedNews>)
    ensures |r| == |items|
    ensures forall k :: 0 <= k < |r| ==> r[k] == MergeItem(items[k], ts)
  {
    seq(|items|, k requires 0 <= k < |items| => MergeItem(items[k], ts))
  }

  /** Translating the items that lack a translation yields, for each of them,
      an item with its link. */
  lemma NeedingItemsAreFound(items: seq<TranslatedNews>, ts: seq<TranslatedNews>, k: nat)
    requires k < |items| && NeedsTranslation(items[k])
    requires |ts| == |Filter(items, NeedsTranslation)|
    requires forall j :: 0 <= j < |ts| ==> ts[j].url == Filter(items, NeedsTranslation)[j].url
    ensures FindByUrl(ts, items[k].url).Some?
  {
    var needing := Filter(items, NeedsTranslation);
    var j :| 0 <= j < |needing| && needing[j] == items[k];
    assert ts[j].url == items[k].url;
  }

  /** `fillMissingTranslations`: nothing changes when every item is
      translated; otherwise every item keeps its position and everything but
      its Chinese fields, translated items stay as they are, and each item
      that lacked a translation gets one. */
  function FillMissingTranslations(items: seq<TranslatedNews>, clientFails: bool, replies: nat -> BatchReply, stamp: int): (r: seq<TranslatedNews>)
    ensures (forall k :: 0 <= k < |items| ==> !NeedsTranslation(items[k])) ==> r == items
    ensures |r| == |items|
    ensures forall k :: 0 <= k < |r| ==> SameExceptChinese(r[k], items[k])
    ensures forall k :: 0 <= k < |r| && !NeedsTranslation(items[k]) ==> r[k] == items[k]
    ensures AllHaveChinese(r)
  {
    var needing := Filter(items, NeedsTranslation);
    if needing == [] then
      assert forall k :: 0 <= k < |items| ==> !NeedsTranslation(items[k]);
      items
    else
      var ts := TranslateNewsWithGemini(ToRawAll(needing), clientFails, replies, stamp);
      assert AllHaveChinese(ts);
      var r := MergeTranslations(items, ts);
      assert AllHaveChinese(r) by {
        forall k | 0 <= k < |items|
          ensures r[k].titleChinese.Some? && r[k].summaryChinese.Some?
        {
          if NeedsTranslation(items[k]) {
            NeedingItemsAreFound(items, ts, k);
          }
        }
      }
      r
  }

  /** An item that lacked a translation takes both Chinese fields of the
      translated run at position `j`, where `j` is the first of the items
      sent for translation with the same link. */
  lemma FilledItemTakesTranslation(items: seq<TranslatedNews>, clientFails: bool, replies: nat -> BatchReply, stamp: int, k: nat)
    requires k < |items| && NeedsTranslation(items[k])
    ensures var needing := Filter(items, NeedsTranslation);
            var ts := TranslateNewsWithGemini(ToRawAll(needing), clientFails, replies, stamp);
            var r := FillMissingTranslations(items, clientFails, replies, stamp);
            var j := FirstWithUrl(needing, items[k].url, TranslatedLink);
            0 <= j < |needing| && |ts| == |needing|
            && r[k].titleChinese == ts[j].titleChinese && r[k].summaryChinese == ts[j].summaryChinese
  {
    var needing := Filter(items, NeedsTranslation);
    var ts := TranslateNewsWithGemini(ToRawAll(needing), clientFails, replies, stamp);
    var url := items[k].url;
    assert items[k] in needing;
    FirstWithUrlAgrees(ts, needing, url);
    assert FindByUrl(ts, url) == Some(ts[FirstWithUrl(needing, url, TranslatedLink)]);
  }

  /** Two runs with the same links position-by-position find a link at the
      same place. */
  lemma FirstWithUrlAgrees(xs: seq<TranslatedNews>, ys: seq<TranslatedNews>, url: string)
    requires |xs| == |ys| && forall i :: 0 <= i < |xs| ==> xs[i].url == ys[i].url
    ensures FirstWithUrl(xs, url, TranslatedLink) == FirstWithUrl(ys, url, TranslatedLink)
  {
    var a := FirstWithUrl(xs, url, TranslatedLink);
    var b := FirstWithUrl(ys, url, TranslatedLink);
    assert 0 <= a ==> TranslatedLink(ys[a]) == url;
    assert 0 <= b ==> TranslatedLink(xs[b]) == url;
  }
}
