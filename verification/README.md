# Stablecoin daily draft runner — a Dafny model

The runner is a scheduled job. It reads stablecoin news from RSS feeds and
searches Google News for new stablecoin launches. It condenses both into a
text brief and asks a writer model for one social-media post draft. It then
emails either that draft, with its sources, or a "no items" notice.

This project models the deterministic core of that job as pure Dafny
functions and proves properties about them:

- `news_fetch.py`:
  - the whitespace cleaner `_clean`;
  - the keyword filter `is_stablecoin_related`;
  - `NewsFetcher.fetch`: per-feed entry handling, field fallbacks, the
    400-character summary cap and deduplication by URL;
  - the decision logic of `ArticleExtractor.extract`.
- `google_news_rss.py`:
  - `google_news_rss_url`, with `urllib.parse.quote` modelled down to its
    UTF-8 bytes and `%XY` escapes;
  - `fetch_google_news`.
- `run_daily.py`:
  - the strip-only `_clean`;
  - the two brief builders and `dedupe_by_key`;
  - `main`, from its settings to the outcome: missing key, failed search,
    notice, or draft with its subject, writer request, source lines and
    email body.

Files, one module each:

| file | module | contents |
|---|---|---|
| options.dfy | Options | `Option` |
| seqs.dfy | Seqs | Python slices, subsequences, flattening |
| text.dfy | Text | Python whitespace, `strip`, the news_fetch `_clean`, joining, decimal numbers |
| dedup.dfy | Dedup | keep-the-first-per-key deduplication, shared by both dedup loops |
| relevance.dfy | Relevance | the keyword filter |
| feed.dfy | Feed | parsed feed entries, the feed parser's outcome |
| news_fetch.dfy | NewsFetch | `Article`, `fetch`, `extract` |
| percent.dfy | PercentEncoding | UTF-8 and `quote` |
| google_news.dfy | GoogleNews | the search URL and `fetch_google_news` |
| briefs.dfy | Briefs | the two brief builders |
| daily_run.dfy | DailyRun | `dedupe_by_key` and `main` |

Everything the job gets from outside is an input of the model, not part of
it:
- feed parsing is a function from URL to entries or a parse failure;
- page download and text extraction are a function from URL to an HTTP
  outcome;
- the writer is a function from request to post;
- the clock is a string;
- the environment variables are `Option<string>` values, and the integer
  caps arrive already parsed.

## Model

| member | source | states |
|---|---|---|
| Seqs.Prefix | news_fetch.py:39 | `s[:n]` is a prefix of `s`: of length `min(n, len(s))` for `n >= 0`, and all but the last `-n` elements for negative `n` |
| Text.Collapse | news_fetch.py:16 | after `re.sub(r"\s+", " ", s)` no two spaces are adjacent, every space is a plain space, and the text starts with whitespace exactly when the input does |
| Text.CollapseAround | news_fetch.py:16 | a whitespace run of any length and kind between visible characters becomes exactly one plain space, whatever the text on either side collapses to |
| Text.NonSpaceCollapse | news_fetch.py:16 | collapsing whitespace keeps every visible character, in order |
| Text.CollapseFixpoint | news_fetch.py:16 | text that already has single plain spaces is left unchanged |
| Text.Strip | run_daily.py:30-31 | `strip()` yields the infix between the leading and trailing whitespace runs, with no whitespace at either end; it is empty exactly when the input is all whitespace, and leaves text without edge whitespace unchanged |
| Text.StripPadded | run_daily.py:30-31 | stripping whitespace padding from text with no edge whitespace gives the text back |
| Text.NonSpaceStrip | run_daily.py:30-31 | stripping keeps every visible character |
| Text.Clean | news_fetch.py:15-16 | the result has single plain spaces and no edge whitespace, keeps exactly the input's visible characters, and equals the input exactly when the input was already in that form |
| Text.CleanAround | news_fetch.py:15-16 | `_clean(a + w + b)` is `_clean(a) + " " + _clean(b)` for a whitespace run `w` between visible characters: inner whitespace is replaced by one space, never deleted |
| Text.CleanIdempotent | news_fetch.py:15-16 | cleaning twice is cleaning once |
| Text.CleanKeepsVisibleText | news_fetch.py:15-16 | the two `_clean` helpers differ only in inner whitespace: both keep the same visible characters |
| Text.Join | run_daily.py:49 | `"\n".join(lines)` starts with the first line, is empty for no lines, and is all whitespace exactly when every line is |
| Text.JoinSnoc | run_daily.py:49 | joining one more line appends the separator and that line |
| Text.SplitJoin | run_daily.py:49 | splitting `"\n".join(lines)` at line breaks gives the lines back when none of them holds a line break |
| Text.NatToStringParses | run_daily.py:40 | the decimal numeral of `i` reads back as `i` |
| Text.NatToStringInjective | run_daily.py:40 | different item numbers have different numerals |
| Relevance.AnyKeywordMeaning | news_fetch.py:20 | `any(k in text for k in ks)` holds exactly when some keyword of `ks` occurs in the text |
| Relevance.RelatedIffKeywordOccurs | news_fetch.py:18-20 | an entry is related exactly when some keyword occurs, at some offset, in the lower-cased `title + " " + summary` |
| Relevance.CaseInsensitive | news_fetch.py:19 | changing the letter case of title or summary never changes the verdict |
| Relevance.UpperCaseTickerMatches | news_fetch.py:9-20 | the title "USDC depegged" is related |
| Dedup.KeepFirstSubseq | news_fetch.py:59-68 | deduplication keeps input order and only drops elements |
| Dedup.KeepFirstDistinct | news_fetch.py:59-68 | kept keys are pairwise distinct and none was already seen |
| Dedup.KeepFirstComplete | news_fetch.py:59-68 | every unseen key of the input is the key of some kept element |
| Dedup.KeepFirstIsFirst | news_fetch.py:59-68 | each kept element is the first element of the input with its key |
| Dedup.KeepFirstOfDistinct | run_daily.py:77-86 | input whose keys are distinct and unseen passes unchanged |
| Dedup.KeepFirstIdempotent | run_daily.py:77-86 | deduplicating twice is deduplicating once |
| Dedup.KeepFirstLength | news_fetch.py:59-68 | deduplication never lengthens its input |
| NewsFetch.EntryToArticleSpec | news_fetch.py:39-55 | an entry yields an article exactly when its cleaned title and link are non-empty and the cleaned title with the full cleaned summary passes the filter; the article keeps title and link visible text, the first `min(400, len)` summary characters, the fallback date, and no content; its title and URL are exactly `_clean` of the entry's title and link |
| NewsFetch.FallbackRules | news_fetch.py:42-43 | `summary` falls back to `description`, and `published` to `updated`, only when the raw primary field is empty; a whitespace-only summary is kept and cleans to "" |
| NewsFetch.AcceptedMembers | news_fetch.py:39-55 | the loop appends exactly the articles of the entries that pass, at most one per entry |
| NewsFetch.AcceptedAppend | news_fetch.py:39-55 | the loop appends in entry order: the articles for entries `a + b` are those for `a` followed by those for `b` |
| NewsFetch.FailedFeedContributesNothing | news_fetch.py:36-57 | a feed whose parse raises leaves the result as if it were not listed |
| NewsFetch.GatheredBound | news_fetch.py:39 | at most `limit_per_feed` articles come from each listed feed, so at most `len(feeds) * limit_per_feed` are gathered in total |
| NewsFetch.GatheredOrigin | news_fetch.py:36-55 | every gathered article comes from an entry among the first `limit_per_feed` of a feed that parsed |
| NewsFetch.DedupeByUrl | news_fetch.py:59-68 | the loop returns the first article for each URL, in order, with pairwise distinct URLs |
| NewsFetch.FetchArticlesValid | news_fetch.py:34-68 | every returned article has a non-empty title and URL and a summary of at most 400 characters, and comes from an entry of a parsed feed, within its first `limit_per_feed` entries, that passed the filter |
| NewsFetch.FetchDeduplicates | news_fetch.py:59-68 | returned URLs are pairwise distinct; the result is an ordered subsequence of the gathered articles and keeps the first article per URL |
| NewsFetch.FetchKeepsEveryUrl | news_fetch.py:59-68 | every gathered URL appears in the result |
| NewsFetch.FetchBound | news_fetch.py:34-68 | with a non-negative limit, `fetch` returns at most `len(feeds) * limit_per_feed` articles in total |
| NewsFetch.FetchedFieldsCleaned | news_fetch.py:39-55 | every returned article has a cleaned title, URL and date, a non-empty URL, a summary whose only whitespace is the plain space, and no extracted text |
| NewsFetch.StoredSummaryNeedNotPass | news_fetch.py:47-54 | the filter sees the full summary but only 400 characters are stored, so a returned article's own title and summary need not pass the filter again |
| NewsFetch.Extract | news_fetch.py:71-81 | `None` exactly for a failed request, a status of 400 or more, or no or empty extracted text; otherwise the first `max_chars` characters of the cleaned text |
| PercentEncoding.Utf8CharDecodes | google_news_rss.py:6 | each code point's UTF-8 bytes announce their own length and decode back to the code point |
| PercentEncoding.Utf8Injective | google_news_rss.py:6 | different strings have different UTF-8 encodings |
| PercentEncoding.QuoteShape | google_news_rss.py:6 | `quote` output has only unreserved characters, `/` and upper-case `%XY` triplets, so it has no `&`, `=`, `?`, `#` or space |
| PercentEncoding.DecodeQuote | google_news_rss.py:6 | percent-decoding `quote(s)` gives back the UTF-8 bytes of `s` |
| PercentEncoding.QuoteInjective | google_news_rss.py:6 | different queries are encoded differently |
| PercentEncoding.QuoteSafeText | google_news_rss.py:6 | text of only unreserved characters and `/` is left unchanged |
| GoogleNews.UrlParts | google_news_rss.py:4-7 | the URL starts with the search endpoint; its `q` value, read up to the first `&`, is the encoded query and decodes to the query's UTF-8 bytes; the rest is `&hl=…&gl=…&ceid=…` unaltered |
| GoogleNews.SearchItemMatchesArticle | google_news_rss.py:14-19 | a search item carries, uncleaned, the fields `fetch` reads from the same entry (news_fetch.py:40-43): cleaning its summary and date gives the fetcher's, and when the fetcher keeps the entry, cleaning the item gives the article's title, URL and date and extends its stored summary |
| GoogleNews.SearchUrlInjective | google_news_rss.py:4-10 | different queries are sent to different URLs |
| GoogleNews.FetchGoogleNews | google_news_rss.py:9-20 | a parse failure reaches the caller; otherwise there is one item per entry among the first `max_items`, in feed order, with raw title and link and the `published`/`updated` and `summary`/`description` fallbacks |
| Briefs.HeadingInjective | run_daily.py:40 | a heading `"{i}) {title}"` determines both the number and the title |
| Briefs.NumberedMembers | run_daily.py:39 | a line of the numbered blocks is a line of the block of some item under that item's number |
| Briefs.BriefEmpty | run_daily.py:49 | the joined and stripped lines are empty exactly when every line is whitespace |
| Briefs.BuildRegularNewsBrief | run_daily.py:34-49 | the regular brief is empty exactly when there are no articles, and it has no edge whitespace |
| Briefs.RegularBriefText | run_daily.py:34-49 | for articles whose fields hold no line break, splitting the returned brief at line breaks gives the blocks' lines in order, without the closing blank line and with the last line stripped |
| Briefs.RegularBriefHeadings | run_daily.py:39-40 | for articles whose fields hold no line break (as fetched), the returned brief has the line `n) t` exactly when the n-th article, counting from 1, has title `t` |
| Briefs.RegularBriefDates | run_daily.py:41-42 | for articles whose fields hold no line break (as fetched), the returned brief has the line `Published: p` exactly when some article has the non-empty date `p` |
| Briefs.RegularBriefUrls | run_daily.py:43 | for articles whose fields hold no line break and whose URLs have no edge whitespace (as fetched), the returned brief has the line `URL: u` exactly when some article has URL `u` |
| Briefs.RegularHeadings | run_daily.py:39-40 | heading `n) t` is among the brief's lines before joining exactly when the n-th article, counting from 1, has title `t` |
| Briefs.RegularDates | run_daily.py:41-42 | among the brief's lines before joining, a `Published:` line is present exactly for a non-empty article date |
| Briefs.RegularUrls | run_daily.py:43 | among the brief's lines before joining, a `URL:` line is present exactly for an article's URL |
| Briefs.RegularSummaries | run_daily.py:44-45 | among the brief's lines before joining, `Summary: s` is present exactly when some article has the non-empty summary `s` |
| Briefs.RegularKeyTextCap | run_daily.py:46-47 | every `Key text:` line before joining is the first 600 characters of some article's non-empty extracted text |
| Briefs.RegularKeyTextPresent | run_daily.py:46-47 | every article with non-empty extracted text has its `Key text:` line before joining |
| Briefs.BuildLaunchNewsBrief | run_daily.py:52-74 | the launch brief is empty exactly when no item has both a stripped title and a stripped link, and it has no edge whitespace |
| Briefs.LaunchBriefText | run_daily.py:52-74 | for items whose fields hold no line break and with at least one item kept, splitting the returned brief at line breaks gives the kept blocks' lines in order, without the closing blank line and with the last line stripped |
| Briefs.LaunchBriefHeadings | run_daily.py:58-67 | for items whose fields hold no line break, the returned brief has the line `m) t` exactly when the m-th item (skipped items still count) is kept and its stripped title is `t` |
| Briefs.LaunchBriefDates | run_daily.py:62-69 | for items whose fields hold no line break, the returned brief has the line `Published: p` exactly when some kept item has the non-empty stripped date `p` |
| Briefs.LaunchBriefUrls | run_daily.py:60-70 | for items whose fields hold no line break, the returned brief has the line `URL: u` exactly when some kept item has the stripped link `u` |
| Briefs.LaunchHeadings | run_daily.py:58-67 | heading `m) t` is among the brief's lines before joining exactly when the m-th item (skipped items still count) is kept and its stripped title is `t` |
| Briefs.LaunchUrls | run_daily.py:60-70 | among the brief's lines before joining, a `URL:` line is present exactly for the stripped link of a kept item |
| Briefs.LaunchDates | run_daily.py:62-69 | among the brief's lines before joining, `Published: p` is present exactly when some kept item has the non-empty stripped date `p` |
| Briefs.LaunchSnippetCap | run_daily.py:71-72 | every `Snippet:` line before joining is the first 280 characters of a kept item's non-empty stripped summary |
| Briefs.LaunchSnippetPresent | run_daily.py:62-72 | every kept item with a non-empty stripped summary has its `Snippet:` line before joining |
| DailyRun.DedupeByKey | run_daily.py:77-86 | `dedupe_by_key` keeps, in order, the first item of every non-empty key; kept keys are distinct and non-empty, and no non-empty key is lost |
| DailyRun.NormaliseMode | run_daily.py:109-111 | the mode is `regular` or `launches` exactly when the stripped, lower-cased `NEWS_MODE` says so; anything else is `both` |
| DailyRun.ModeNameSelectsMode | run_daily.py:109-111 | each mode's own name selects that mode |
| DailyRun.SlotDefaults | run_daily.py:101-103 | an unknown slot gets the morning style and no hint; the two known slots have different styles and different, non-empty hints |
| DailyRun.HintsClean | run_daily.py:24-27 | neither topic hint has edge whitespace |
| DailyRun.RegularSectionSpec | run_daily.py:137-147 | the regular brief is empty exactly when no article is chosen; the sources are the chosen articles in fetch order, at most `max_articles`, each with a non-empty URL |
| DailyRun.RegularSectionHeadings | run_daily.py:137-147 | the regular brief of a run, split at line breaks, has the line `n) t` exactly when the n-th chosen article has title `t` |
| DailyRun.RegularSectionUrls | run_daily.py:137-147 | the regular brief of a run, split at line breaks, has the line `URL: u` exactly when some chosen article has URL `u` |
| DailyRun.ChosenSingleLine | run_daily.py:137-147 | the chosen articles, with their extracted text, hold no line break and have non-empty URLs without edge whitespace |
| DailyRun.SearchAllFails | run_daily.py:151-153 | the search fails exactly when the feed of some query fails |
| DailyRun.SearchAllBound | run_daily.py:151-153 | a successful search yields at most `per_query_items` items per query |
| DailyRun.LaunchTopSpec | run_daily.py:155-156 | the kept hits number at most `max_launch_items`, have distinct non-empty links, and are each the first hit with their link |
| DailyRun.LaunchSectionSpec | run_daily.py:150-160 | the launch brief is empty exactly when no kept hit has a stripped title and link; its sources are the kept hits' raw titles and links |
| DailyRun.SectionsShape | run_daily.py:170-174 | each section that is present is non-empty and has no edge whitespace |
| DailyRun.HintThenBody | run_daily.py:179 | prefixing the hint and a blank line, then stripping, drops the separator when either side is empty |
| DailyRun.CombineLayout | run_daily.py:170-179 | the writer's brief is the hint when set, then the non-empty sections (regular before launches), separated by blank lines |
| DailyRun.ListedMembers | run_daily.py:195 | a source line is listed exactly for a source with a non-empty URL |
| DailyRun.ListedAll | run_daily.py:195 | when every source has a URL, each is listed, in order |
| DailyRun.SourceLinesSpec | run_daily.py:192-198 | a non-heading line is in the list exactly when it belongs to a source with a URL; the regular heading and lines come first |
| DailyRun.RegularSourcesFirst | run_daily.py:193-195 | with regular sources present, the list opens with `Regular sources:` and one line per regular source, in order |
| DailyRun.NoSourcesListed | run_daily.py:207 | the email says "No sources listed." exactly when neither part has sources |
| DailyRun.EmailBodyHoldsPost | run_daily.py:200-209 | the post can be read back from the email body right after the preamble, and only the rule, the source list and a newline follow it |
| DailyRun.PartsEmpty | run_daily.py:136-160 | each part's brief is empty exactly when the mode skips it or it found nothing; the launch part is missing exactly when a wanted search failed |
| DailyRun.RunStops | run_daily.py:93-153 | the run stops with no email exactly when the API key is unset or empty, or when launches are wanted and a search feed raised |
| DailyRun.RunNoItems | run_daily.py:162-167 | the notice is sent exactly when the key is set, the mode is `both`, the search succeeded, no article was chosen and no kept hit has a stripped title and link |
| DailyRun.SingleModeDrafts | run_daily.py:153-187 | a `regular` or `launches` run with the key set produces a draft in its slot's style unless a search feed raised |
| DailyRun.EmptyRegularRun | run_daily.py:170-198 | a `regular` run that chose nothing sends the writer only the slot hint and lists no sources |
| DailyRun.DraftListsRegularSources | run_daily.py:192-195 | a draft lists every chosen article under `Regular sources:`, in fetch order |

The no-items notice is sent only when both halves of the condition at
run_daily.py:163 hold. Each half also tests that the mode asks for that
part, so a `regular` or `launches` run never sends the notice, even when
its single part is empty: it asks the writer for a draft instead
(`RunNoItems`, `SingleModeDrafts`).

`fetch_google_news` has no `try`, unlike `NewsFetcher.fetch`. A search feed
that raises therefore ends the run before any email; this is the
`SearchFailed` outcome.

## Left out

- Network access, `feedparser`, `requests` and `trafilatura`: they are inputs (the `parse` and `page` functions), because their behaviour is outside this code.
- The request timeout and headers of `extract`, and any exception raised inside the extraction library: both are folded into the `PageFetch` outcome.
- The writer (`gemini_agent.py`) and the prompts: the post is an input function of the writer request. The model name setting is not modelled because it only selects that writer.
- A writer failure: `generate_x_post_from_news` is attempted at most three times, after which tenacity raises `RetryError` (gemini_agent.py:12), which ends the run with no email; the model's writer is a total function, so every draft outcome assumes the writer answered.
- Email transport (`emailer.py`): the outcome records the subject and body that would be sent; a transport failure is not modelled.
- `load_dotenv`, reading the environment, and `int()` parsing of the caps: settings arrive as `Option<string>` values and integers. A non-numeric cap, which raises in the code, is not modelled.
- The log lines printed by `main`: they have no effect on the outcome.
- The clock: the UTC time is an input string.
- `RSS_FEEDS` and `QUERIES` are inputs of the model; news_sources.py is not part of this model.
- Text.Lower: lower-cases ASCII letters only, because Unicode case mapping tables are out of scope; non-ASCII letters keep their case.
- PercentEncoding.Utf8Char: Dafny characters exclude surrogate code points, so the `UnicodeEncodeError` that Python raises for a lone surrogate in a query is not modelled.
- GoogleNews.FetchGoogleNews: `max_items` is always passed by `main`, so the default of 10 is not modelled.
- Briefs.LaunchBriefHeadings, Briefs.LaunchBriefDates, Briefs.LaunchBriefUrls, Briefs.LaunchBriefText: search items come back raw, and `strip()` keeps inner line breaks, so a title or summary holding a line break adds lines to the launch brief (the item `("a\n2) b", "l", "", "")` yields a line `2) b`); these lemmas describe the returned text only for items without line breaks. The regular brief needs no such condition in a run: fetched fields are cleaned (`RegularSectionHeadings`).
- Briefs.RegularBriefHeadings, Briefs.RegularBriefDates, Briefs.RegularBriefUrls, Briefs.RegularBriefText: `build_regular_news_brief` accepts any articles, and one whose title holds a line break adds lines to the brief (a title `"a\n2) b"` yields a line `2) b`); these lemmas describe the returned text only for articles without line breaks, which is every article a run passes (`ChosenSingleLine`).
