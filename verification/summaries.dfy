/** The three summarizers and the daily run that feeds one of them. Each
    renders the article list, hands a prompt to a language model and cleans
    up the reply. The model call itself is not modelled: its outcome is a
    parameter, either the reply text or an exception raised somewhere inside
    the `try` (transport error, HTTP error status, missing key in the
    response). */
module Summaries {
  import opened Outcomes
  import opened Strings
  import opened Fences
  import opened Articles
  import opened Render

  /** What the language-model call inside the `try` gave back. */
  datatype Reply = Raised | Text(text: string)

  /** The local pipeline: unavailable (the import or the model load raised),
      or a summarizer that returns its summary text or raises. */
  datatype Pipeline = Unavailable | Available(summarize: string -> Option<string>)

  // ---------------------------------------------------------------------
  // generate_summary_with_claude

  /** The article list is rendered before the `try`, so a dict without a
      title raises out of the function; any failure inside the `try` is
      logged and the function returns `None`; otherwise the reply gets one
      fence-stripping pass. */
  function ClaudeSummary(ds: seq<ArticleDict>, reply: Reply): (r: Outcome<Option<string>>)
    ensures r.Raises? <==> !Titled(ds)
    ensures r.Raises? ==> r.error == KeyError("title")
    ensures r.Returns? ==> (r.value.Some? <==> reply.Text?)
    ensures r.Returns? && r.value.Some? ==> Trimmed(r.value.value) && |r.value.value| <= |reply.text|
    ensures r.Returns? && reply.Text? ==> r.value == Some(StripFence(reply.text))
  {
    match ArticlesText(ClaudeBlocks, ds)
    case Raises(e) => Raises(e)
    case Returns(_) =>
      match reply
      case Raised => Returns(None)
      case Text(t) => Returns(Some(StripFence(t)))
  }

  // ---------------------------------------------------------------------
  // generate_summary_with_huggingface

  /** The `try` block of the Hugging Face summarizer: one fence-stripping
      pass, an emptiness check, then a second pass. The emptiness branch
      logs a name that is never bound, so it raises `NameError`, which the
      generic handler turns into `None`: the result is `None` either way. */
  function HuggingFaceReply(reply: Reply): (r: Option<string>)
    ensures r.Some? ==> reply.Text? && StripFence(reply.text) != ""
    ensures r.Some? ==> Trimmed(r.value) && |r.value| <= |reply.text|
    ensures reply.Text? && StripFence(reply.text) != "" ==> r.Some?
    ensures r.Some? ==> r.value == StripFence(StripFence(reply.text))
  {
    match reply
    case Raised => None
    case Text(t) =>
      var once := StripFence(t);
      if once == "" then None else Some(StripFence(once))
  }

  /** Only the first twenty dicts are rendered, outside the `try`. */
  function HuggingFaceSummary(ds: seq<ArticleDict>, reply: Reply): (r: Outcome<Option<string>>)
    ensures r.Raises? <==> !Titled(ds[..Min(20, |ds|)])
    ensures r.Raises? ==> r.error == KeyError("title")
    ensures r.Returns? ==> r.value == HuggingFaceReply(reply)
  {
    match ArticlesText(HuggingFaceBlocks, ds)
    case Raises(e) => Raises(e)
    case Returns(_) => Returns(HuggingFaceReply(reply))
  }

  // ---------------------------------------------------------------------
  // generate_summary_local

  /** Everything, rendering included, happens inside the `try`: a missing
      title, a missing pipeline or a failing summarizer all give `None`. */
  function LocalSummary(ds: seq<ArticleDict>, pipeline: Pipeline): (r: Option<string>)
    ensures r.Some? ==> Titled(ds[..Min(10, |ds|)]) && pipeline.Available?
    ensures r.Some? ==> StartsWith(r.value, SummaryOpening) && EndsWith(r.value, SummaryClosing)
    ensures !Titled(ds[..Min(10, |ds|)]) ==> r.None?
    ensures pipeline.Available? && ArticlesText(LocalPieces, ds).Returns?
            && pipeline.summarize(ArticlesText(LocalPieces, ds).value).Some?
            ==> r == Some(WrapSummary(pipeline.summarize(ArticlesText(LocalPieces, ds).value).value))
  {
    match pipeline
    case Unavailable => None
    case Available(summarize) =>
      match ArticlesText(LocalPieces, ds)
      case Raises(_) => None
      case Returns(text) =>
        match summarize(text)
        case None => None
        case Some(summary) => Some(WrapSummary(summary))
  }

  // ---------------------------------------------------------------------
  // The daily run: main() collects from RSS and asks Claude

  /** The configured feeds, fetched in this order. */
  const RssFeeds: seq<string> := [
    "https://rss.nytimes.com/services/xml/rss/nyt/US.xml",
    "https://rss.nytimes.com/services/xml/rss/nyt/Technology.xml",
    "https://feeds.content.dowjones.io/public/rss/WSJcomUSBusiness"
  ]

  /** `main()` up to the e-mail: the collected articles, as dicts, go to the
      Claude summarizer. `feeds` holds one outcome per configured feed. The
      collector fills every title, so this never raises. */
  function DailySummary(feeds: seq<FeedResult>, reply: Reply): (r: Outcome<Option<string>>)
    requires |feeds| == |RssFeeds|
    ensures r.Returns?
    ensures reply.Raised? ==> r.value.None?
    ensures reply.Text? ==> r.value == Some(StripFence(reply.text))
  {
    CollectedAreTitled(Collected(feeds));
    ClaudeSummary(AsDicts(Collected(feeds)), reply)
  }

  // ---------------------------------------------------------------------
  // Properties

  /** The collector fills every title, so its articles never make a
      summarizer raise. */
  lemma CollectedAreTitled(articles: seq<Article>)
    ensures Titled(AsDicts(articles))
  {
  }

  /** At most fifteen articles reach the summarizer in the daily run: five
      from each configured feed. */
  lemma DailyArticlesBound(feeds: seq<FeedResult>)
    requires |feeds| == |RssFeeds|
    ensures |AsDicts(Collected(feeds))| <= 15
  {
    CollectedBound(feeds);
  }

  /** No feed answered: the summarizer still receives a (empty) list and
      the run completes without raising. */
  lemma NoFeedsStillSummarized(reply: Reply)
    ensures DailySummary([Failed, Failed, Failed], reply).Returns?
    ensures Collected([Failed, Failed, Failed]) == []
  {
    assert Collected([Failed, Failed, Failed]) == [];
  }

  /** Both hosted summarizers return a contiguous piece of the reply: the
      clean-up only removes a prefix and a suffix. */
  lemma SummaryIsSliceOfReply(ds: seq<ArticleDict>, reply: Reply)
    ensures ClaudeSummary(ds, reply).Returns? && ClaudeSummary(ds, reply).value.Some?
            ==> IsSlice(ClaudeSummary(ds, reply).value.value, reply.text)
    ensures HuggingFaceReply(reply).Some? ==> IsSlice(HuggingFaceReply(reply).value, reply.text)
  {
    if reply.Text? {
      var once := StripFence(reply.text);
      StripFenceIsSlice(reply.text);
      StripFenceIsSlice(once);
      SliceTransitive(StripFence(once), once, reply.text);
    }
  }

  /** A fenced HTML reply comes back as its stripped body from both hosted
      summarizers, provided the body carries no fence of its own. */
  lemma FencedReplyAgree(ds: seq<ArticleDict>, body: string)
    requires Titled(ds)
    requires !StartsWith(body, Backticks)
    requires !StartsWith(Strip(body), Backticks) && !EndsWith(Strip(body), Backticks)
    requires Strip(body) != ""
    ensures ClaudeSummary(ds, Text(HtmlOpening + body + Backticks)) == Returns(Some(Strip(body)))
    ensures HuggingFaceSummary(ds, Text(HtmlOpening + body + Backticks)) == Returns(Some(Strip(body)))
  {
    HtmlFencedBody(body);
    SecondPassFixes(Strip(body));
    assert Titled(ds[..Min(20, |ds|)]);
  }

  /** On text the first pass has already cleaned, with no fence left at
      either end, the second pass changes nothing. */
  lemma SecondPassFixes(s: string)
    requires Trimmed(s) && !StartsWith(s, Backticks) && !EndsWith(s, Backticks)
    ensures StripFence(s) == s
  {
    UnfencedOnlyStripped(s);
    StripTrimmed(s);
  }

  /** The two hosted summarizers agree whenever the first pass leaves no
      fence at either end and something is left. */
  lemma HuggingFaceAgreesWithClaude(ds: seq<ArticleDict>, t: string)
    requires Titled(ds)
    requires StripFence(t) != ""
    requires !StartsWith(StripFence(t), Backticks) && !EndsWith(StripFence(t), Backticks)
    ensures HuggingFaceSummary(ds, Text(t)) == ClaudeSummary(ds, Text(t))
  {
    SecondPassFixes(StripFence(t));
    assert Titled(ds[..Min(20, |ds|)]);
  }

  /** The emptiness check runs before the second pass, so an empty summary
      can still come out: "``` ``````" is cleaned to "```" and then to "". */
  lemma HuggingFaceEmptyAfterCheck()
    ensures HuggingFaceReply(Text("``` ``````")) == Some("")
  {
    SecondPassEmpties();
  }

  /** A reply that is empty once cleaned gives no summary. */
  lemma HuggingFaceEmptyReply(t: string)
    requires AllSpace(t)
    ensures HuggingFaceReply(Text(t)) == None
  {
    StripFenceAllSpace(t);
  }

  /** An all-whitespace reply loses nothing to the fence steps and is
      stripped to nothing. */
  lemma StripFenceAllSpace(t: string)
    requires AllSpace(t)
    ensures StripFence(t) == ""
  {
    if |t| >= 3 {
      assert t[..3][0] == t[0] && t[|t| - 3..][2] == t[|t| - 1];
    }
    UnfencedOnlyStripped(t);
    StripAllSpace(t);
  }

  /** The Hugging Face summarizer reads only the first twenty dicts. */
  lemma HuggingFaceIgnoresRest(ds: seq<ArticleDict>, more: seq<ArticleDict>, reply: Reply)
    requires |ds| >= 20
    ensures HuggingFaceSummary(ds + more, reply) == HuggingFaceSummary(ds, reply)
  {
    assert (ds + more)[..20] == ds[..20];
  }

  /** The local summarizer wraps exactly what the pipeline produced, and
      the wrapper can be taken off again. */
  lemma LocalSummaryUnwraps(ds: seq<ArticleDict>, pipeline: Pipeline)
    requires LocalSummary(ds, pipeline).Some?
    ensures ArticlesText(LocalPieces, ds).Returns?
    ensures UnwrapSummary(LocalSummary(ds, pipeline).value)
            == pipeline.summarize(ArticlesText(LocalPieces, ds).value)
  {
    var text := ArticlesText(LocalPieces, ds).value;
    UnwrapWrap(pipeline.summarize(text).value);
  }

  /** Unlike the hosted summarizers, a missing title among the first ten
      dicts makes the local summarizer return `None` instead of raising. */
  lemma LocalMissingTitle(ds: seq<ArticleDict>, pipeline: Pipeline, k: nat)
    requires k < |ds| && k < 10 && ds[k].title.None?
    ensures LocalSummary(ds, pipeline) == None
    ensures ClaudeSummary(ds, Raised).Raises?
  {
    assert ds[..Min(10, |ds|)][k] == ds[k];
  }
}
