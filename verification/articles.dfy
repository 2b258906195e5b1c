/** The RSS collector `fetch_news_from_rss`: it walks the configured feeds in
    order, turns the first five entries of each into article records, and
    wraps the whole walk in one `try`, so a feed that fails ends the walk
    and keeps what the earlier feeds gave. Fetching and XML parsing are not
    modelled: each feed arrives already parsed, or as a failure. */
module Articles {
  import opened Outcomes

  /** A parsed feed entry: each key may be missing. */
  datatype Entry = Entry(
    title: Option<string>,
    summary: Option<string>,
    description: Option<string>,
    link: Option<string>,
    published: Option<string>,
    author: Option<string>)

  /** A parsed feed: the channel title (if any) and its entries in order. */
  datatype Feed = Feed(title: Option<string>, entries: seq<Entry>)

  /** Processing one feed either yields the parsed feed or raises. */
  datatype FeedResult = Parsed(feed: Feed) | Failed

  /** The normalised record the collector produces; every field is filled. */
  datatype Article = Article(
    title: string,
    description: string,
    url: string,
    sourceName: string,
    publishedAt: string,
    author: string)

  /** Only the first entries of each feed are taken. */
  const EntriesPerFeed: nat := 5

  /** One entry as an article record, with the collector's defaults for
      missing keys. */
  function FromEntry(feedTitle: Option<string>, e: Entry): (a: Article)
    ensures e.title.Some? ==> a.title == e.title.value
    ensures e.title.None? ==> a.title == "Untitled"
    ensures e.summary.Some? ==> a.description == e.summary.value
    ensures e.summary.None? && e.description.Some? ==> a.description == e.description.value
    ensures e.summary.None? && e.description.None? ==> a.description == ""
    ensures e.link.Some? ==> a.url == e.link.value
    ensures e.link.None? ==> a.url == ""
    ensures feedTitle.Some? ==> a.sourceName == feedTitle.value
    ensures feedTitle.None? ==> a.sourceName == "RSS Feed"
    ensures e.published.Some? ==> a.publishedAt == e.published.value
    ensures e.published.None? ==> a.publishedAt == ""
    ensures e.author.Some? ==> a.author == e.author.value
    ensures e.author.None? ==> a.author == "Unknown"
  {
    Article(
      title := e.title.GetOr("Untitled"),
      description := e.summary.GetOr(e.description.GetOr("")),
      url := e.link.GetOr(""),
      sourceName := feedTitle.GetOr("RSS Feed"),
      publishedAt := e.published.GetOr(""),
      author := e.author.GetOr("Unknown"))
  }

  function Min(a: nat, b: nat): nat {
    if a <= b then a else b
  }

  /** The entries of `es`, in order, as article records. */
  function FromEntries(feedTitle: Option<string>, es: seq<Entry>): (r: seq<Article>)
    ensures |r| == |es|
    ensures forall k :: 0 <= k < |es| ==> r[k] == FromEntry(feedTitle, es[k])
  {
    if |es| == 0 then []
    else [FromEntry(feedTitle, es[0])] + FromEntries(feedTitle, es[1..])
  }

  /** What one successfully parsed feed contributes: `feed.entries[:5]`. */
  function FeedArticles(f: Feed): (r: seq<Article>)
    ensures |r| == Min(EntriesPerFeed, |f.entries|)
    ensures forall k :: 0 <= k < |r| ==> r[k] == FromEntry(f.title, f.entries[k])
  {
    FromEntries(f.title, f.entries[..Min(EntriesPerFeed, |f.entries|)])
  }

  /** Reference definition of the collector's result: the feeds' articles
      concatenated in order, up to the first feed that fails. */
  function Collected(feeds: seq<FeedResult>): seq<Article> {
    if |feeds| == 0 then []
    else match feeds[0]
      case Failed => []
      case Parsed(f) => FeedArticles(f) + Collected(feeds[1..])
  }

  predicate AllParsed(feeds: seq<FeedResult>) {
    forall k :: 0 <= k < |feeds| ==> feeds[k].Parsed?
  }

  /** The index of the first feed that fails, or the number of feeds. */
  function FirstFailure(feeds: seq<FeedResult>): (k: nat)
    ensures k <= |feeds| && AllParsed(feeds[..k])
    ensures k < |feeds| ==> feeds[k].Failed?
  {
    if |feeds| == 0 || feeds[0].Failed? then 0
    else
      var k := 1 + FirstFailure(feeds[1..]);
      assert feeds[..k] == [feeds[0]] + feeds[1..][..k - 1];
      k
  }

  // ---------------------------------------------------------------------
  // Properties of the collector

  /** Parsed feeds contribute independently, in list order. */
  lemma {:induction false} CollectedAppend(a: seq<FeedResult>, b: seq<FeedResult>)
    requires AllParsed(a)
    ensures Collected(a + b) == Collected(a) + Collected(b)
  {
    if |a| > 0 {
      assert (a + b)[1..] == a[1..] + b;
      CollectedAppend(a[1..], b);
    } else {
      assert a + b == b;
    }
  }

  /** A failing feed ends the walk: the result is exactly what the feeds
      before it contribute, whatever follows. */
  lemma CollectedStopsAtFailure(feeds: seq<FeedResult>)
    ensures Collected(feeds) == Collected(feeds[..FirstFailure(feeds)])
  {
    var k := FirstFailure(feeds);
    assert feeds == feeds[..k] + feeds[k..];
    CollectedAppend(feeds[..k], feeds[k..]);
  }

  /** Feeds after a failure have no influence on the result. */
  lemma {:induction false} FeedsAfterFailureIgnored(feeds: seq<FeedResult>, more: seq<FeedResult>)
    requires FirstFailure(feeds) < |feeds|
    ensures Collected(feeds + more) == Collected(feeds)
  {
    assert (feeds + more)[0] == feeds[0];
    if feeds[0].Parsed? {
      assert (feeds + more)[1..] == feeds[1..] + more;
      FeedsAfterFailureIgnored(feeds[1..], more);
    }
  }

  /** At most five articles per feed that was reached. */
  lemma {:induction false} CollectedBound(feeds: seq<FeedResult>)
    ensures |Collected(feeds)| <= EntriesPerFeed * FirstFailure(feeds)
    ensures |Collected(feeds)| <= EntriesPerFeed * |feeds|
  {
    if |feeds| > 0 && feeds[0].Parsed? {
      CollectedBound(feeds[1..]);
    }
  }

  /** Every collected article is one of the first five entries of a feed
      before the first failure, normalised with that feed's title. */
  lemma {:induction false} CollectedOrigin(feeds: seq<FeedResult>, n: nat)
    requires n < |Collected(feeds)|
    ensures exists f, e :: EntryOfFeed(feeds, f, e) && f < FirstFailure(feeds)
                           && Collected(feeds)[n] == FromEntry(feeds[f].feed.title, feeds[f].feed.entries[e])
  {
    var f0 := feeds[0].feed;
    var here := FeedArticles(f0);
    if n < |here| {
      assert EntryOfFeed(feeds, 0, n);
    } else {
      CollectedOrigin(feeds[1..], n - |here|);
      var f, e :| EntryOfFeed(feeds[1..], f, e) && f < FirstFailure(feeds[1..])
                  && Collected(feeds[1..])[n - |here|]
                     == FromEntry(feeds[1..][f].feed.title, feeds[1..][f].feed.entries[e]);
      assert EntryOfFeed(feeds, f + 1, e);
    }
  }

  /** Entry `e` is among the first five entries of parsed feed `f`. */
  predicate EntryOfFeed(feeds: seq<FeedResult>, f: int, e: int) {
    0 <= f < |feeds| && feeds[f].Parsed? && 0 <= e < EntriesPerFeed
    && e < |feeds[f].feed.entries|
  }

  // ---------------------------------------------------------------------
  // The collector as the program runs it

  /** `fetch_news_from_rss`: a loop over the feeds, leaving the loop at the
      first feed that fails. It never raises. */
  method CollectArticles(feeds: seq<FeedResult>) returns (articles: seq<Article>)
    ensures articles == Collected(feeds)
    ensures |articles| <= EntriesPerFeed * |feeds|
  {
    articles := [];
    var i := 0;
    while i < |feeds| && feeds[i].Parsed?
      invariant i <= |feeds| && AllParsed(feeds[..i])
      invariant articles == Collected(feeds[..i])
    {
      articles := AppendEntries(articles, feeds[i].feed);
      CollectedStep(feeds, i);
      i := i + 1;
    }
    CollectedEnd(feeds, i);
    CollectedBound(feeds);
  }

  /** The inner loop of `fetch_news_from_rss`: append the first five entries
      of one feed. */
  method AppendEntries(articles: seq<Article>, feed: Feed) returns (out: seq<Article>)
    ensures out == articles + FeedArticles(feed)
  {
    out := articles;
    var n := Min(EntriesPerFeed, |feed.entries|);
    var j := 0;
    while j < n
      invariant j <= n
      invariant out == articles + FeedArticles(feed)[..j]
    {
      out := out + [FromEntry(feed.title, feed.entries[j])];
      assert FeedArticles(feed)[..j + 1] == FeedArticles(feed)[..j] + [FeedArticles(feed)[j]];
      j := j + 1;
    }
    assert FeedArticles(feed)[..j] == FeedArticles(feed);
  }

  /** One more parsed feed extends the collected articles by its own. */
  lemma CollectedStep(feeds: seq<FeedResult>, i: nat)
    requires i < |feeds| && AllParsed(feeds[..i]) && feeds[i].Parsed?
    ensures AllParsed(feeds[..i + 1])
    ensures Collected(feeds[..i + 1]) == Collected(feeds[..i]) + FeedArticles(feeds[i].feed)
  {
    assert feeds[..i + 1] == feeds[..i] + [feeds[i]];
    CollectedAppend(feeds[..i], [feeds[i]]);
    assert [feeds[i]][1..] == [];
  }

  /** Where the walk stops, the collected articles are final. */
  lemma CollectedEnd(feeds: seq<FeedResult>, i: nat)
    requires i <= |feeds| && AllParsed(feeds[..i])
    requires i < |feeds| ==> feeds[i].Failed?
    ensures Collected(feeds) == Collected(feeds[..i])
  {
    assert feeds == feeds[..i] + feeds[i..];
    CollectedAppend(feeds[..i], feeds[i..]);
  }
}
