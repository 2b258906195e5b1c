# Daily news digest: a Dafny model of its collector and summarizers

The daily news digest is a batch script. It reads three RSS feeds and turns
the first five entries of each into article dicts. It asks a language model
for an HTML summary of those articles, cleans up the model's reply by
removing Markdown code fences, and e-mails the result. Each summarizer also
renders the articles as text (`articles_text`). The two hosted summarizers
compute that text but never send it: their prompts embed the article list
itself (`{articles}`, daily_news_emailer.py:67 and
huggingface_summarizer.py:31). The rendering still matters there, because
it raises on a missing title. Only the local model summarizes its rendering
(huggingface_summarizer.py:114). This project
models the pure parts of that pipeline and proves properties of them:

- `Articles`: `fetch_news_from_rss`. It maps each entry to an article with
  the script's defaults, takes at most five entries per feed, keeps the
  feeds in order, and wraps the whole walk in a single `try`. A feed that
  fails therefore ends the walk, and only the earlier feeds' articles are
  kept.
- `Render`: the three `articles_text` renderings over dicts whose keys may
  be missing:
  - Claude: numbered blocks over every article.
  - Hugging Face: numbered blocks over the first 20 articles, with
    descriptions cut to 200 characters.
  - Local: "title. description" pieces over the first 10 articles.

  It also covers the local model's HTML wrapper. `article['title']` raises
  `KeyError` when the title is missing, so a rendering is an `Outcome` that
  either returns or raises.
- `Fences`: one fence-stripping pass. It drops a leading "```html", then a
  leading "```", then a trailing "```", then calls `strip()`.
- `Strings`: the Python string operations these steps use:
  - `startswith` and `endswith`;
  - `replace(p, "", 1)` and `rsplit(sep, 1)[0]`;
  - `strip()`, over the full set of characters for which CPython's
    `str.isspace()` is true;
  - `str(n)` for a natural number;
  - `sep.join`.
- `Summaries`: the three summarizer functions and the part of `main()` that
  runs before the e-mail is sent. The language-model call is a parameter.
  It either returns reply text or raises inside the `try`.

Some behaviours one might expect do not hold of the code:

- One fence-stripping pass is not idempotent. `Fences.NotIdempotent` exhibits
  a reply where a second pass removes another fence.
- Text with no fence markers is not returned unchanged: it is still
  stripped of surrounding whitespace.
- A failing feed does not let the later feeds contribute. The single `try`
  surrounds the whole loop.
- No provider fallback exists in the code. `main()` calls only the Claude
  summarizer.
- The Claude and Hugging Face renderings sit outside the `try`, so a missing
  title raises out of the summarizer instead of being logged.

## Model

| member | source | states |
|---|---|---|
| `Articles.FromEntry` | daily_news_emailer.py:38-45 | A key that is present passes through. A missing key takes the script's default: title "Untitled", url "", source name "RSS Feed", published "", author "Unknown". The description is the entry's summary, else its description, else the empty string. |
| `Articles.FromEntries` | daily_news_emailer.py:37-45 | One article per entry, in order: article k is entry k normalised with the feed's title. |
| `Articles.FeedArticles` | daily_news_emailer.py:37-45 | `feed.entries[:5]`: a feed contributes exactly min(5, number of entries) articles, and article k comes from entry k. |
| `Articles.CollectArticles` | daily_news_emailer.py:29-49 | The loop returns exactly the reference result `Collected`: the feeds' articles in order, up to the first failing feed. That is at most five articles per feed. |
| `Articles.AppendEntries` | daily_news_emailer.py:37-45 | The inner loop appends one feed's first five entries, in order, after the articles already gathered. |
| `Articles.FirstFailure` | daily_news_emailer.py:33-48 | Every feed before the returned index parsed. The feed at the index, if there is one, failed. |
| `Articles.CollectedAppend` | daily_news_emailer.py:34-45 | Feeds that all parse contribute independently: collecting a + b gives the articles of a followed by those of b. |
| `Articles.CollectedStopsAtFailure` | daily_news_emailer.py:33-48 | The result equals what the feeds before the first failure contribute. |
| `Articles.FeedsAfterFailureIgnored` | daily_news_emailer.py:33-48 | Once a feed has failed, appending further feeds does not change the result. |
| `Articles.CollectedBound` | daily_news_emailer.py:37 | There are at most five articles per feed reached before the failure, and at most five per configured feed. |
| `Articles.CollectedOrigin` | daily_news_emailer.py:34-45 | Every collected article is the normalised form of one of the first five entries of some feed before the first failure. |
| `Strings.ReplaceFirst` | daily_news_emailer.py:105 | `replace(p, "", 1)` removes the leftmost occurrence and leaves the text around it intact. It is the identity when `p` does not occur, and removes the prefix when the text starts with `p`. |
| `Strings.RSplitHead` | daily_news_emailer.py:109 | `rsplit(sep, 1)[0]` is the text before the rightmost occurrence of `sep`, or all of the text when `sep` does not occur. When the text ends with `sep`, it is the text without that suffix. |
| `Strings.FindFrom` | daily_news_emailer.py:105 | The returned position is the leftmost occurrence at or after the start. None means no occurrence. |
| `Strings.FindLastFrom` | daily_news_emailer.py:109 | The returned position is the rightmost occurrence at or before the bound. None means no occurrence. |
| `Strings.StripCharacterised` | daily_news_emailer.py:111 | `strip()` returns a slice of its input. Only whitespace lies before and after the slice, and the slice neither starts nor ends with whitespace. |
| `Strings.TrimIsStrip` | daily_news_emailer.py:111 | Any slice with that property equals `Strip` of the input, so the stripped text is uniquely determined. |
| `Strings.TrimUnique` | daily_news_emailer.py:111 | Two trims of the same text are equal. |
| `Strings.StripBetween` | daily_news_emailer.py:111 | When whitespace surrounds a slice whose first and last characters are not whitespace, `strip()` yields that slice. |
| `Strings.StripAllSpace` | huggingface_summarizer.py:66-68 | Text made only of whitespace strips to the empty string. |
| `Strings.StripTrimmed` | huggingface_summarizer.py:80 | Stripping text that has no surrounding whitespace changes nothing. |
| `Strings.StripIsSlice` | daily_news_emailer.py:111 | The stripped text is a contiguous piece of the input. |
| `Strings.LeadingSpaceMaximal` | daily_news_emailer.py:111 | `strip()` removes every leading whitespace character. |
| `Strings.LeadingSpaceMinimal` | daily_news_emailer.py:111 | `strip()` removes nothing past the first character that is not whitespace. |
| `Strings.TrailingSpaceMaximal` | daily_news_emailer.py:111 | `strip()` removes every trailing whitespace character. |
| `Strings.TrailingSpaceMinimal` | daily_news_emailer.py:111 | `strip()` removes nothing before the last character that is not whitespace. |
| `Strings.Strip` | daily_news_emailer.py:111 | `strip()` returns text with no surrounding whitespace that is no longer than its input. `StripCharacterised` and `TrimIsStrip` give its exact value. |
| `Strings.StartsWithIff` | daily_news_emailer.py:104 | `s.startswith(p)` holds exactly when `s` is `p` followed by the rest of `s`. |
| `Strings.EndsWithIff` | daily_news_emailer.py:108 | `s.endswith(p)` holds exactly when `s` is some text followed by `p`. |
| `Strings.Decimal` | daily_news_emailer.py:55 | `str(i+1)` is a non-empty string of decimal digits with no leading zero, unless the number is 0. |
| `Strings.DecimalRoundTrip` | daily_news_emailer.py:55 | Reading the decimal digits back gives the number. |
| `Strings.DecimalInjective` | daily_news_emailer.py:55 | Different numbers give different digit strings. |
| `Strings.JoinOpening` | daily_news_emailer.py:55-56 | A join of three or more parts starts with the first two parts, each followed by the separator. |
| `Strings.JoinPartAt` | daily_news_emailer.py:54 | In `sep.join(parts)`, part i appears verbatim after the earlier parts and their separators. |
| `Strings.JoinSeparatorAfter` | daily_news_emailer.py:54 | In `sep.join(parts)`, every part except the last is followed by the separator. |
| `Strings.JoinLength` | daily_news_emailer.py:54 | The length of the join is the sum of the parts' lengths plus one separator between each pair of neighbouring parts. |
| `Strings.SliceTransitive` | daily_news_emailer.py:104-111 | A slice of a slice is a slice, so successive prefix and suffix removals keep a contiguous piece. |
| `Fences.StripFence` | daily_news_emailer.py:104-111 | One pass returns text with no surrounding whitespace that is no longer than the reply. |
| `Fences.StripFenceSlices` | daily_news_emailer.py:104-111 | One pass equals `strip()` of the reply after cutting the opening fences off the front and the closing fence off the back. `OpeningShape` and `ClosingShape` say which cuts those are. |
| `Fences.DropOpening` | daily_news_emailer.py:104-107 | When the text starts with the fence, the result is the text with that fence removed. Otherwise the text is unchanged. |
| `Fences.DropClosing` | daily_news_emailer.py:108-109 | When the text ends with "```", the result is the text with that suffix removed. Otherwise the text is unchanged. |
| `Fences.GuardedReplace` | daily_news_emailer.py:104-107 | Under its `startswith` guard, the `replace` call removes exactly the prefix. |
| `Fences.GuardedRSplit` | daily_news_emailer.py:108-109 | Under its `endswith` guard, the `rsplit` call removes exactly the suffix. |
| `Fences.Unfence` | daily_news_emailer.py:104-109 | The three fence steps never lengthen the reply. `UnfenceSlices` gives their exact cut. |
| `Fences.UnfenceSlices` | daily_news_emailer.py:104-109 | The three fence steps only cut a prefix and a suffix. |
| `Fences.OpeningShape` | daily_news_emailer.py:104-107 | What comes off the front is exactly one of: nothing, "```", "```html", or "```html```". It is at least "```html" exactly when the reply starts with "```html", and it is "```html```" exactly when the reply starts with that. |
| `Fences.ClosingShape` | daily_news_emailer.py:108-109 | What comes off the back is nothing or one "```". It is "```" exactly when what the opening steps left ends with "```". |
| `Fences.StripFenceIsSlice` | daily_news_emailer.py:104-111 | A pass returns a contiguous piece of the reply, so fences inside the reply survive. |
| `Fences.UnfencedOnlyStripped` | daily_news_emailer.py:104-111 | A reply that neither starts nor ends with "```" is only stripped. |
| `Fences.HtmlFencedBody` | daily_news_emailer.py:104-111 | "```html" + body + "```" gives the stripped body, provided the body does not itself open with "```". |
| `Fences.PlainFencedBody` | daily_news_emailer.py:106-111 | "```" + body + "```" gives the stripped body, provided the body does not begin with "html". |
| `Fences.FencedHtmlReply` | daily_news_emailer.py:104-111 | "```html<p>Hi</p>```" is cleaned to "<p>Hi</p>". |
| `Fences.NotIdempotent` | daily_news_emailer.py:104-111 | One pass turns "``````x" into "```x", and a second pass turns that into "x". |
| `Fences.SecondPassEmpties` | huggingface_summarizer.py:58-80 | "``` ``````" becomes "```" after one pass and "" after two. |
| `Render.AsDict` | daily_news_emailer.py:38-45 | The dict the collector builds has every key, and the article can be read back from it unchanged. |
| `Render.AsDicts` | daily_news_emailer.py:38-45 | The collector's dicts correspond one-to-one, in order, with its articles, and every key is present. |
| `Render.ShortDescription` | huggingface_summarizer.py:23 | `get('description', 'N/A')[:200]` is "N/A" when the key is missing. Otherwise it is the description's first min(200, length) characters. |
| `Render.SourceName` | daily_news_emailer.py:57 | `get('source', {}).get('name', 'Unknown')` is the source's name when both keys are present, and "Unknown" otherwise. |
| `Render.Header` | daily_news_emailer.py:55 | A block header reads "Article ", then the number's digits, then ":". |
| `Render.BlockLines` | daily_news_emailer.py:55-60 | A Claude block has six lines and a Hugging Face block has five, in this order: header; label and title; "Source: "; "Summary: " or "Description: "; "URL: "; and "Published: " for Claude. |
| `Render.BlockLinesValues` | daily_news_emailer.py:57-59 | In both numbered blocks, the source line holds the source name and the url line holds the url, or nothing when it is missing. |
| `Render.ClaudeSummaryLine` | daily_news_emailer.py:58 | Claude's summary line holds the whole description, or "No description available" when it is missing. |
| `Render.ClaudePublishedLine` | daily_news_emailer.py:60 | Claude's published line holds the date, or "Unknown date" when it is missing. |
| `Render.HuggingFaceLinesValues` | huggingface_summarizer.py:23 | The Hugging Face description line holds the first 200 characters of the description ("N/A" when it is missing), so at most 200 characters follow its label. |
| `Render.LocalPieceIs` | huggingface_summarizer.py:109 | A local piece is the title, ". " and the description, with nothing after ". " when the description is missing. |
| `Render.Blocks` | daily_news_emailer.py:54-62 | The comprehension returns exactly when every dict has a title. Otherwise it raises `KeyError('title')`. It returns one block per dict. |
| `Render.BlockAt` | daily_news_emailer.py:55-61 | Block k renders dict k under number `first + k`. |
| `Render.Considered` | huggingface_summarizer.py:25 | Claude renders every dict, Hugging Face the first 20 (`articles[:20]`), and the local model the first 10 (`articles[:10]`). |
| `Render.ArticlesText` | huggingface_summarizer.py:19-26 | A rendering returns exactly when every dict it considers has a title. Otherwise it raises `KeyError('title')`. |
| `Render.RenderedBlocks` | daily_news_emailer.py:54-62 | A rendering that returns is the separator-join of one block per considered dict: "\n\n" for the numbered styles and " " for local pieces. |
| `Render.EmptyListRendersEmpty` | daily_news_emailer.py:54-62 | An empty article list renders as the empty string and does not raise. |
| `Render.RenderedBlockIs` | huggingface_summarizer.py:19-25 | The k-th block renders dict k under number k + 1. |
| `Render.BlockInText` | daily_news_emailer.py:54-62 | Each block appears verbatim in the text, at the offset that the earlier blocks and separators take up. |
| `Render.SeparatorBetweenBlocks` | huggingface_summarizer.py:108-111 | Consecutive blocks or pieces are separated by the rendering's separator. |
| `Render.BlockOpening` | daily_news_emailer.py:55-56 | A numbered block opens with "Article n:" and then a line holding the label ("Headline: " or "Title: ") and the title. A local piece opens with the title and ". ". |
| `Render.HeaderNumber` | huggingface_summarizer.py:20 | The digits in a block header read back as the block's number. |
| `Render.HuggingFaceReadsFirstTwenty` | huggingface_summarizer.py:25 | Articles after the twentieth do not affect the Hugging Face text, including whether it raises. |
| `Render.LocalReadsFirstTen` | huggingface_summarizer.py:110 | Articles after the tenth do not affect the local text. |
| `Render.CollectedArticlesRender` | daily_news_emailer.py:38-45 | The collector's dicts always render: block k is article k's own block, and its source name is the article's source name. |
| `Render.WrapSummary` | huggingface_summarizer.py:116 | The wrapped summary starts with the div/h2/p opening and ends with "</p></div>". Its length is the summary's plus both fixed parts. |
| `Render.UnwrapWrap` | huggingface_summarizer.py:116 | Taking the wrapper off gives back exactly the summary. |
| `Render.WrapInjective` | huggingface_summarizer.py:116 | Different summaries give different HTML. |
| `Summaries.ClaudeSummary` | daily_news_emailer.py:51-117 | The summarizer raises `KeyError` exactly when some article lacks a title. Otherwise it returns a summary exactly when the model call succeeded. The summary is the reply after one fence-stripping pass. It has no surrounding whitespace and is no longer than the reply. |
| `Summaries.HuggingFaceReply` | huggingface_summarizer.py:55-91 | A summary comes back exactly when the model call succeeded and the first pass left something. It is the reply after two fence-stripping passes. It has no surrounding whitespace and is no longer than the reply. |
| `Summaries.HuggingFaceSummary` | huggingface_summarizer.py:15-91 | The summarizer raises `KeyError` exactly when one of the first 20 articles lacks a title. Otherwise its result is that of the `try` block. |
| `Summaries.LocalSummary` | huggingface_summarizer.py:95-126 | A missing title among the first ten articles gives `None`, without raising. When the pipeline is available, the rendering returns and the summarizer succeeds, the result is the summarizer's output wrapped in the HTML template. |
| `Summaries.LocalSummaryUnwraps` | huggingface_summarizer.py:114-116 | Unwrapping the local summary gives exactly what the pipeline returned for the rendered text. |
| `Summaries.LocalMissingTitle` | huggingface_summarizer.py:108-126 | A missing title among the first ten gives `None` from the local summarizer, while the Claude summarizer raises. |
| `Summaries.CollectedAreTitled` | daily_news_emailer.py:39 | Every collected article carries a title. |
| `Summaries.DailySummary` | daily_news_emailer.py:151-153 | `main()` never raises before sending. The summary is the reply after one fence-stripping pass, or `None` when the model call failed. |
| `Summaries.DailyArticlesBound` | daily_news_emailer.py:23-27 | With the three configured feeds, at most 15 articles reach the summarizer. |
| `Summaries.NoFeedsStillSummarized` | daily_news_emailer.py:151-153 | When every feed fails, an empty list is summarized without raising. |
| `Summaries.SummaryIsSliceOfReply` | huggingface_summarizer.py:58-80 | Both hosted summarizers return a contiguous piece of the reply, after one pass or after two. |
| `Summaries.FencedReplyAgree` | huggingface_summarizer.py:58-80 | A fenced HTML reply whose body has no fence of its own gives the stripped body from both hosted summarizers. |
| `Summaries.SecondPassFixes` | huggingface_summarizer.py:72-80 | The second pass changes nothing on cleaned text with no fence at either end. |
| `Summaries.HuggingFaceAgreesWithClaude` | huggingface_summarizer.py:58-80 | When the first pass leaves non-empty text with no fence at either end, both hosted summarizers return the same result. |
| `Summaries.HuggingFaceEmptyAfterCheck` | huggingface_summarizer.py:66-80 | The emptiness check comes before the second pass, so "``` ``````" yields an empty summary rather than `None`. |
| `Summaries.HuggingFaceEmptyReply` | huggingface_summarizer.py:66-70 | A reply made only of whitespace gives `None`. |
| `Summaries.StripFenceAllSpace` | daily_news_emailer.py:104-111 | A reply made only of whitespace is cleaned to the empty string. |
| `Summaries.HuggingFaceIgnoresRest` | huggingface_summarizer.py:25 | Articles after the twentieth do not affect the Hugging Face summarizer. |

## Left out

- Network calls are not modelled: the feed downloads, the Anthropic and Hugging Face requests, and the local `transformers` pipeline. Their outcomes are parameters: a parsed feed or a failure, reply text or an exception, and a pipeline function or none.
- XML parsing by `feedparser` is not modelled. A feed arrives as an optional channel title and a list of entries whose keys may be missing.
- An exception raised partway through one feed's entries is not modelled. The dict lookups with `.get` cannot raise, so a feed either contributes its first five entries or fails as a whole.
- Prompt construction is not modelled. The prompts embed the Python `repr` of the article list, not the rendered text, and the reply is a parameter.
- `send_email`, the SMTP session, `MIMEText`, the date in the subject line, and the environment variables are not modelled. They are I/O.
- Logging is not modelled. It has no effect on results. The one exception is the `NameError` in the Hugging Face empty-content branch, which the model covers.
- The separate `HTTPError` handler in the Hugging Face summarizer is not modelled separately. It returns `None`, exactly as the generic handler does.
- Article dict values of a non-string type are not modelled. For example, `source` present but `None` would make `.get` raise `AttributeError`. The collector never builds such dicts.
- Articles from a news-aggregation API and a fallback between summarization providers are not part of this model. Neither appears in daily_news_emailer.py or huggingface_summarizer.py: `main()` calls only the Claude summarizer.
- `async` execution and `asyncio.run` are not modelled. The coroutine runs sequentially.
