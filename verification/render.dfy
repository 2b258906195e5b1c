/** The textual renderings of an article list. Each summarizer builds one
    (`articles_text`) from a list of Python dicts; the dicts may lack keys,
    and `article['title']` raises `KeyError` where the title is missing.
    The two numbered renderings are computed but not interpolated into the
    prompt, which embeds the list itself. */
module Render {
  import opened Outcomes
  import opened Strings
  import opened Articles

  /** The `source` value of an article dict: another dict with an optional
      `name`. */
  datatype SourceDict = SourceDict(name: Option<string>)

  /** An article as the summarizers receive it: a dict whose keys may be
      missing. */
  datatype ArticleDict = ArticleDict(
    title: Option<string>,
    description: Option<string>,
    url: Option<string>,
    source: Option<SourceDict>,
    publishedAt: Option<string>,
    author: Option<string>)

  /** The dict the collector builds for an article: every key present, so
      the article can be read back from it. */
  function AsDict(a: Article): (d: ArticleDict)
    ensures FromDict(d) == Some(a)
  {
    ArticleDict(Some(a.title), Some(a.description), Some(a.url),
                Some(SourceDict(Some(a.sourceName))), Some(a.publishedAt), Some(a.author))
  }

  /** The article a dict holds, when every key (and the source's name) is
      present. */
  function FromDict(d: ArticleDict): Option<Article> {
    if d.title.Some? && d.description.Some? && d.url.Some? && d.source.Some?
       && d.source.value.name.Some? && d.publishedAt.Some? && d.author.Some?
    then Some(Article(d.title.value, d.description.value, d.url.value,
                      d.source.value.name.value, d.publishedAt.value, d.author.value))
    else None
  }

  function AsDicts(articles: seq<Article>): (ds: seq<ArticleDict>)
    ensures |ds| == |articles|
    ensures forall k :: 0 <= k < |ds| ==> ds[k] == AsDict(articles[k])
  {
    if |articles| == 0 then [] else [AsDict(articles[0])] + AsDicts(articles[1..])
  }

  /** Which rendering: Claude's numbered blocks, Hugging Face's numbered
      blocks, or the local model's "title. description" pieces. */
  datatype Style = ClaudeBlocks | HuggingFaceBlocks | LocalPieces

  const BlockSeparator: string := "\n\n"
  const PieceSeparator: string := " "

  /** How many articles each rendering looks at, if it caps them. */
  function Cap(style: Style): Option<nat> {
    match style
    case ClaudeBlocks => None
    case HuggingFaceBlocks => Some(20)
    case LocalPieces => Some(10)
  }

  function Separator(style: Style): string {
    if style.LocalPieces? then PieceSeparator else BlockSeparator
  }

  /** Claude's defaults for a missing description and a missing date. */
  const NoDescription: string := "No description available"
  const UnknownDate: string := "Unknown date"

  /** `article.get('source', {}).get('name', 'Unknown')` */
  function SourceName(d: ArticleDict): (r: string)
    ensures d.source.Some? && d.source.value.name.Some? ==> r == d.source.value.name.value
    ensures d.source.None? || d.source.value.name.None? ==> r == "Unknown"
  {
    match d.source
    case None => "Unknown"
    case Some(s) => s.name.GetOr("Unknown")
  }

  /** `article.get('description', 'N/A')[:200]` */
  function ShortDescription(d: ArticleDict): (r: string)
    ensures |r| <= 200
    ensures d.description.None? ==> r == "N/A"
    ensures d.description.Some? ==> StartsWith(d.description.value, r)
    ensures d.description.Some? ==> |r| == Min(200, |d.description.value|)
    ensures d.description.Some? && |d.description.value| <= 200 ==> r == d.description.value
  {
    var s := d.description.GetOr("N/A");
    s[..Min(200, |s|)]
  }

  /** `f"Article {i+1}:"` for `n == i + 1`: the first line of a block. */
  function Header(n: nat): (r: string)
    ensures StartsWith(r, "Article ") && EndsWith(r, ":")
    ensures |r| == |"Article "| + |Decimal(n)| + 1
  {
    "Article " + Decimal(n) + ":"
  }

  /** The label in front of the title inside a numbered block. */
  function TitleLabel(style: Style): string {
    if style.ClaudeBlocks? then "Headline: " else "Title: "
  }

  /** The lines of the numbered block for article number `n` (counting
      from 1), whose title is `title`. */
  function BlockLines(style: Style, n: nat, title: string, d: ArticleDict): (r: seq<string>)
    ensures |r| == (if style.ClaudeBlocks? then 6 else 5)
    ensures r[0] == Header(n) && r[1] == TitleLabel(style) + title
    ensures StartsWith(r[2], "Source: ") && StartsWith(r[4], "URL: ")
    ensures StartsWith(r[3], if style.ClaudeBlocks? then "Summary: " else "Description: ")
    ensures style.ClaudeBlocks? ==> StartsWith(r[5], "Published: ")
  {
    if style.ClaudeBlocks? then
      [ Header(n),
        TitleLabel(style) + title,
        "Source: " + SourceName(d),
        "Summary: " + d.description.GetOr(NoDescription),
        "URL: " + d.url.GetOr(""),
        "Published: " + d.publishedAt.GetOr(UnknownDate) ]
    else
      [ Header(n),
        TitleLabel(style) + title,
        "Source: " + SourceName(d),
        "Description: " + ShortDescription(d),
        "URL: " + d.url.GetOr("") ]
  }

  /** The rendering of one article: a numbered block of lines, or the local
      model's "title. description" piece. */
  function Block(style: Style, n: nat, title: string, d: ArticleDict): string {
    if style.LocalPieces? then title + ". " + d.description.GetOr("")
    else Join("\n", BlockLines(style, n, title, d))
  }

  predicate Titled(ds: seq<ArticleDict>) {
    forall k :: 0 <= k < |ds| ==> ds[k].title.Some?
  }

  /** The list comprehension: the blocks of `ds`, numbered from `first`,
      raising `KeyError('title')` at the first dict without a title. */
  function Blocks(style: Style, ds: seq<ArticleDict>, first: nat): (r: Outcome<seq<string>>)
    ensures r.Returns? <==> Titled(ds)
    ensures r.Raises? ==> r.error == KeyError("title")
    ensures r.Returns? ==> |r.value| == |ds|
  {
    if |ds| == 0 then Returns([])
    else if ds[0].title.None? then Raises(KeyError("title"))
    else match Blocks(style, ds[1..], first + 1)
      case Raises(e) => Raises(e)
      case Returns(rest) =>
        Returns([Block(style, first, ds[0].title.value, ds[0])] + rest)
  }

  /** Block `k` of the comprehension renders dict `k` under number
      `first + k`. */
  lemma {:induction false} BlockAt(style: Style, ds: seq<ArticleDict>, first: nat, k: nat)
    requires Titled(ds) && k < |ds|
    ensures Blocks(style, ds, first).value[k] == Block(style, first + k, ds[k].title.value, ds[k])
  {
    if k > 0 {
      BlocksTail(style, ds, first);
      BlockAt(style, ds[1..], first + 1, k - 1);
      assert ds[1..][k - 1] == ds[k];
    }
  }

  /** After the first block come the blocks of the remaining dicts. */
  lemma BlocksTail(style: Style, ds: seq<ArticleDict>, first: nat)
    requires Titled(ds) && |ds| > 0
    ensures Blocks(style, ds, first).value[1..] == Blocks(style, ds[1..], first + 1).value
  {
  }

  /** The articles a rendering looks at: all of them, or the first `Cap`. */
  function Considered(style: Style, ds: seq<ArticleDict>): (r: seq<ArticleDict>)
    ensures Cap(style).None? ==> r == ds
    ensures Cap(style).Some? ==> |r| == Min(Cap(style).value, |ds|) && r == ds[..|r|]
  {
    match Cap(style)
    case None => ds
    case Some(n) => ds[..Min(n, |ds|)]
  }

  /** `sep.join([... for i, article in enumerate(considered)])`. */
  function ArticlesText(style: Style, ds: seq<ArticleDict>): (r: Outcome<string>)
    ensures r.Returns? <==> Titled(Considered(style, ds))
    ensures r.Raises? ==> r.error == KeyError("title")
  {
    match Blocks(style, Considered(style, ds), 1)
    case Raises(e) => Raises(e)
    case Returns(bs) => Returns(Join(Separator(style), bs))
  }

  /** The blocks of a rendering that returns. */
  function RenderedBlocks(style: Style, ds: seq<ArticleDict>): (bs: seq<string>)
    requires Titled(Considered(style, ds))
    ensures ArticlesText(style, ds) == Returns(Join(Separator(style), bs))
    ensures |bs| == |Considered(style, ds)|
  {
    Blocks(style, Considered(style, ds), 1).value
  }

  // ---------------------------------------------------------------------
  // Properties of the renderings

  /** No articles render as the empty string. */
  lemma EmptyListRendersEmpty(style: Style)
    ensures ArticlesText(style, []) == Returns("")
  {
    assert Considered(style, []) == [];
  }

  /** The `k`-th rendered block is article `k` rendered under number
      `k + 1`. */
  lemma RenderedBlockIs(style: Style, ds: seq<ArticleDict>, k: nat)
    requires Titled(Considered(style, ds)) && k < |Considered(style, ds)|
    ensures RenderedBlocks(style, ds)[k] == Block(style, k + 1, ds[k].title.value, ds[k])
  {
    var cs := Considered(style, ds);
    assert cs[k] == ds[k];
    BlockAt(style, cs, 1, k);
  }

  /** Block `k` appears verbatim in the text, at the offset the earlier
      blocks and separators take up. */
  lemma BlockInText(style: Style, ds: seq<ArticleDict>, k: nat)
    requires Titled(Considered(style, ds)) && k < |Considered(style, ds)|
    ensures var bs := RenderedBlocks(style, ds);
            var text := Join(Separator(style), bs);
            var o := Offset(Separator(style), bs, k);
            o + |bs[k]| <= |text| && text[o..o + |bs[k]|] == bs[k]
  {
    JoinPartAt(Separator(style), RenderedBlocks(style, ds), k);
  }

  /** A numbered block opens with the line "Article n:" and then the title
      line; a local piece opens with the title and ". ". */
  lemma BlockOpening(style: Style, n: nat, title: string, d: ArticleDict)
    ensures style.LocalPieces? ==> StartsWith(Block(style, n, title, d), title + ". ")
    ensures !style.LocalPieces? ==>
              StartsWith(Block(style, n, title, d), Header(n) + "\n" + TitleLabel(style) + title + "\n")
  {
    var b := Block(style, n, title, d);
    if style.LocalPieces? {
      assert b[..|title + ". "|] == title + ". ";
    } else {
      var lines := BlockLines(style, n, title, d);
      JoinOpening("\n", lines);
      assert lines[0] + "\n" + lines[1] + "\n" == Header(n) + "\n" + TitleLabel(style) + title + "\n";
    }
  }

  /** What follows the source and url labels in a numbered block: the
      source name, and the url or nothing. */
  lemma BlockLinesValues(style: Style, n: nat, title: string, d: ArticleDict)
    requires !style.LocalPieces?
    ensures BlockLines(style, n, title, d)[2] == "Source: " + SourceName(d)
    ensures d.url.Some? ==> BlockLines(style, n, title, d)[4] == "URL: " + d.url.value
    ensures d.url.None? ==> BlockLines(style, n, title, d)[4] == "URL: "
  {
  }

  /** Claude's summary line carries the whole description, or "No
      description available". */
  lemma ClaudeSummaryLine(n: nat, title: string, d: ArticleDict)
    ensures d.description.Some? ==>
              BlockLines(ClaudeBlocks, n, title, d)[3] == "Summary: " + d.description.value
    ensures d.description.None? ==>
              BlockLines(ClaudeBlocks, n, title, d)[3] == "Summary: " + NoDescription
  {
  }

  /** Claude's last line carries the publication date, or "Unknown date". */
  lemma ClaudePublishedLine(n: nat, title: string, d: ArticleDict)
    ensures d.publishedAt.Some? ==>
              BlockLines(ClaudeBlocks, n, title, d)[5] == "Published: " + d.publishedAt.value
    ensures d.publishedAt.None? ==>
              BlockLines(ClaudeBlocks, n, title, d)[5] == "Published: " + UnknownDate
  {
  }

  /** The Hugging Face block's description line holds at most the first 200
      characters of the description, or "N/A". */
  lemma HuggingFaceLinesValues(n: nat, title: string, d: ArticleDict)
    ensures BlockLines(HuggingFaceBlocks, n, title, d)[3] == "Description: " + ShortDescription(d)
    ensures |BlockLines(HuggingFaceBlocks, n, title, d)[3]| <= |"Description: "| + 200
  {
  }

  /** The local model's piece is the title, ". " and the description, or
      nothing after ". " when the description is missing. */
  lemma LocalPieceIs(n: nat, title: string, d: ArticleDict)
    ensures d.description.Some? ==> Block(LocalPieces, n, title, d) == title + ". " + d.description.value
    ensures d.description.None? ==> Block(LocalPieces, n, title, d) == title + ". "
  {
  }

  /** Consecutive blocks are separated by the rendering's separator. */
  lemma SeparatorBetweenBlocks(style: Style, ds: seq<ArticleDict>, k: nat)
    requires Titled(Considered(style, ds)) && k + 1 < |Considered(style, ds)|
    ensures var bs := RenderedBlocks(style, ds);
            var text := Join(Separator(style), bs);
            var o := Offset(Separator(style), bs, k) + |bs[k]|;
            o + |Separator(style)| <= |text| && text[o..o + |Separator(style)|] == Separator(style)
  {
    JoinSeparatorAfter(Separator(style), RenderedBlocks(style, ds), k);
  }

  /** The number in a block's header reads back as the block's position:
      blocks are numbered 1, 2, ... in list order. */
  lemma HeaderNumber(n: nat)
    ensures var h := Header(n);
            var digits := h[8..|h| - 1];
            (forall i :: 0 <= i < |digits| ==> IsDigit(digits[i]))
            && DigitsValue(digits) == n
  {
    var h := Header(n);
    assert h[8..|h| - 1] == Decimal(n);
    DecimalRoundTrip(n);
  }

  /** The Hugging Face text depends on the first 20 articles only. */
  lemma HuggingFaceReadsFirstTwenty(ds: seq<ArticleDict>, more: seq<ArticleDict>)
    requires |ds| >= 20
    ensures ArticlesText(HuggingFaceBlocks, ds + more) == ArticlesText(HuggingFaceBlocks, ds)
  {
    assert (ds + more)[..20] == ds[..20];
  }

  /** The local text depends on the first 10 articles only. */
  lemma LocalReadsFirstTen(ds: seq<ArticleDict>, more: seq<ArticleDict>)
    requires |ds| >= 10
    ensures ArticlesText(LocalPieces, ds + more) == ArticlesText(LocalPieces, ds)
  {
    assert (ds + more)[..10] == ds[..10];
  }

  /** Articles the collector built always render: their dicts carry every
      key, so no `KeyError` is raised and no rendering default applies. */
  lemma CollectedArticlesRender(style: Style, articles: seq<Article>, k: nat)
    requires k < |Considered(style, AsDicts(articles))|
    ensures ArticlesText(style, AsDicts(articles)).Returns?
    ensures RenderedBlocks(style, AsDicts(articles))[k]
            == Block(style, k + 1, articles[k].title, AsDict(articles[k]))
    ensures SourceName(AsDict(articles[k])) == articles[k].sourceName
  {
    var ds := AsDicts(articles);
    var cs := Considered(style, ds);
    assert forall i :: 0 <= i < |cs| ==> cs[i] == ds[i];
    RenderedBlockIs(style, ds, k);
  }

  // ---------------------------------------------------------------------
  // The local model's HTML wrapper

  const SummaryOpening: string := "<div><h2>Today's News Summary</h2><p>"
  const SummaryClosing: string := "</p></div>"

  /** `f"<div><h2>Today's News Summary</h2><p>{text}</p></div>"` */
  function WrapSummary(text: string): (html: string)
    ensures StartsWith(html, SummaryOpening) && EndsWith(html, SummaryClosing)
    ensures |html| == |SummaryOpening| + |text| + |SummaryClosing|
  {
    var html := SummaryOpening + text + SummaryClosing;
    assert html[..|SummaryOpening|] == SummaryOpening;
    assert html[|html| - |SummaryClosing|..] == SummaryClosing;
    html
  }

  /** The summary text inside a wrapped summary, if `html` is one. */
  function UnwrapSummary(html: string): Option<string> {
    if |html| >= |SummaryOpening| + |SummaryClosing|
       && StartsWith(html, SummaryOpening) && EndsWith(html, SummaryClosing)
    then Some(html[|SummaryOpening|..|html| - |SummaryClosing|])
    else None
  }

  /** Unwrapping recovers exactly the text that was wrapped. */
  lemma UnwrapWrap(text: string)
    ensures UnwrapSummary(WrapSummary(text)) == Some(text)
  {
    var html := WrapSummary(text);
    assert html[|SummaryOpening|..|html| - |SummaryClosing|] == text;
  }

  /** Wrapping is injective: different summaries give different HTML. */
  lemma WrapInjective(a: string, b: string)
    requires WrapSummary(a) == WrapSummary(b)
    ensures a == b
  {
    UnwrapWrap(a);
    UnwrapWrap(b);
  }
}
