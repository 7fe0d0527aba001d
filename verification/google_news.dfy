/** google_news_rss.py: the Google News RSS search URL for a query, and the
    items read from that feed. Fetching and parsing the feed is an input:
    a URL maps to the parser's entries or to the exception it raised. */
module GoogleNews {
  import opened Options
  import opened Seqs
  import opened Text
  import opened Feed
  import opened PercentEncoding
  import NewsFetch

  /** The search endpoint up to and including the query parameter's `=`. */
  const SearchEndpoint: string := "https://news.google.com/rss/search?q="

  /** The parameters after the query, written verbatim. */
  function LocaleParams(hl: string, gl: string, ceid: string): (r: string)
    ensures |r| > 0 && r[0] == '&'
  {
    "&hl=" + hl + "&gl=" + gl + "&ceid=" + ceid
  }

  /** The text before the first `sep` (all of `s` when there is none). */
  function TakeUntil(s: string, sep: char): (r: string)
    ensures StartsWith(s, r)
    ensures forall i :: 0 <= i < |r| ==> r[i] != sep
    ensures |r| < |s| ==> s[|r|] == sep
  {
    if |s| == 0 || s[0] == sep then "" else [s[0]] + TakeUntil(s[1..], sep)
  }

  lemma {:induction false} TakeUntilSeparator(v: string, w: string, sep: char)
    requires forall i :: 0 <= i < |v| ==> v[i] != sep
    ensures TakeUntil(v + [sep] + w, sep) == v
    decreases |v|
  {
    if |v| > 0 {
      assert (v + [sep] + w)[1..] == v[1..] + [sep] + w;
      TakeUntilSeparator(v[1..], w, sep);
      assert v == [v[0]] + v[1..];
    }
  }

  /** The raw value of the `q` parameter of a search URL: the text after
      the endpoint up to the first `&`. */
  function QueryParam(url: string): (r: Option<string>)
    ensures r.Some? <==> StartsWith(url, SearchEndpoint)
  {
    if StartsWith(url, SearchEndpoint) then Some(TakeUntil(url[|SearchEndpoint|..], '&'))
    else None
  }

  /** `google_news_rss_url(query, hl, gl, ceid)`: the endpoint, the query
      percent-encoded as `urllib.parse.quote` does, then the locale
      parameters as given. */
  function GoogleNewsRssUrl(query: string, hl: string, gl: string, ceid: string): string {
    SearchEndpoint + Quote(query) + LocaleParams(hl, gl, ceid)
  }

  /** The `q` parameter read back out of the URL is the encoded query, it
      decodes to the query's UTF-8 bytes, and the rest of the URL is the
      locale parameters unaltered. */
  lemma UrlParts(query: string, hl: string, gl: string, ceid: string)
    ensures var url := GoogleNewsRssUrl(query, hl, gl, ceid);
      && StartsWith(url, SearchEndpoint)
      && QueryParam(url) == Some(Quote(query))
      && PercentDecode(QueryParam(url).value) == Some(Utf8(query))
      && url[|SearchEndpoint| + |Quote(query)|..] == LocaleParams(hl, gl, ceid)
  {
    QuoteShape(query);
    DecodeQuote(query);
    ParamValue(SearchEndpoint, Quote(query), LocaleParams(hl, gl, ceid), GoogleNewsRssUrl(query, hl, gl, ceid));
  }

  /** In `e + q + t` with `t` starting at an `&` and no `&` in `q`, the
      value read after `e` is `q` and `t` follows it. */
  lemma ParamValue(e: string, q: string, t: string, url: string)
    requires url == e + q + t
    requires forall i :: 0 <= i < |q| ==> q[i] != '&'
    requires |t| > 0 && t[0] == '&'
    ensures StartsWith(url, e) && TakeUntil(url[|e|..], '&') == q
    ensures url[|e| + |q|..] == t
  {
    assert url[..|e|] == e;
    assert url[|e|..] == q + ['&'] + t[1..];
    TakeUntilSeparator(q, t[1..], '&');
  }

  /** The URL `fetch_google_news` requests: the default locale
      `hl=en-US`, `gl=US`, `ceid=US:en`. */
  function SearchUrl(query: string): string {
    GoogleNewsRssUrl(query, "en-US", "US", "US:en")
  }

  /** Different queries are sent to different URLs. */
  lemma SearchUrlInjective(a: string, b: string)
    requires SearchUrl(a) == SearchUrl(b)
    ensures a == b
  {
    UrlParts(a, "en-US", "US", "US:en");
    UrlParts(b, "en-US", "US", "US:en");
    QuoteInjective(a, b);
  }

  /** A search item as `fetch_google_news` builds it. */
  datatype SearchItem = SearchItem(title: string, link: string, published: string, summary: string)

  /** One entry as a search item: title and link raw (neither cleaned nor
      checked), `published` falling back to `updated` and `summary` to
      `description` when the first is empty. */
  function ToSearchItem(e: FeedEntry): SearchItem {
    SearchItem(e.title, e.link, OrElse(e.published, e.updated), OrElse(e.summary, e.description))
  }

  /** A search item holds the fields the news fetcher reads from the same
      entry, uncleaned: cleaning its summary and date gives the fetcher's
      filter summary and date, and when the fetcher builds an article from
      the entry, cleaning the item gives that article's title, URL and date
      and extends its stored summary. */
  lemma SearchItemMatchesArticle(e: FeedEntry)
    ensures var n := ToSearchItem(e);
      && Clean(n.summary) == NewsFetch.EntrySummary(e)
      && Clean(n.published) == NewsFetch.EntryPublished(e)
    ensures var n := ToSearchItem(e);
      NewsFetch.EntryToArticle(e).Some? ==>
        var a := NewsFetch.EntryToArticle(e).value;
        && a.title == Clean(n.title) && a.url == Clean(n.link) && a.published == Clean(n.published)
        && a.summary == Clean(n.summary)[..|a.summary|]
  {
  }

  /** `fetch_google_news(query, max_items)`: `None` when parsing the search
      feed raised (the exception reaches the caller), else one item per
      entry among the first `max_items` (Python slice semantics), in feed
      order, with no filtering, cleaning or deduplication. */
  function FetchGoogleNews(query: string, maxItems: int, parse: string -> FeedOutcome)
    : (r: Option<seq<SearchItem>>)
    ensures r.None? <==> parse(SearchUrl(query)).ParseFailed?
    ensures r.Some? ==>
      var es := parse(SearchUrl(query)).entries;
      && |r.value| == |Prefix(es, maxItems)| <= |es|
      && (maxItems >= 0 ==> |r.value| <= maxItems)
      && forall i :: 0 <= i < |r.value| ==> r.value[i] == ToSearchItem(es[i])
  {
    match parse(SearchUrl(query))
    case ParseFailed => None
    case Parsed(entries) =>
      var es := Prefix(entries, maxItems);
      Some(seq(|es|, i requires 0 <= i < |es| => ToSearchItem(es[i])))
  }
}
