/** news_fetch.py: turning parsed RSS entries into filtered, deduplicated
    articles (`NewsFetcher.fetch`) and the decision part of
    `ArticleExtractor.extract`. Fetching and parsing are inputs: a feed URL
    maps to its parsed entries or to a parse failure, an article URL to an
    HTTP outcome with the extracted text. */
module NewsFetch {
  import opened Options
  import opened Seqs
  import opened Text
  import opened Relevance
  import opened Dedup
  import opened Feed

  datatype Article = Article(
    title: string,
    url: string,
    published: string,
    summary: string,
    content: Option<string>)

  /** The cap on a stored article summary. */
  const SummaryCap: nat := 400

  function ArticleUrl(a: Article): string { a.url }

  /** The summary the filter sees: `summary`, or `description` when the raw
      `summary` is empty, then cleaned. */
  function EntrySummary(e: FeedEntry): string {
    Clean(OrElse(e.summary, e.description))
  }

  /** `published`, or `updated` when the raw `published` is empty, cleaned. */
  function EntryPublished(e: FeedEntry): string {
    Clean(OrElse(e.published, e.updated))
  }

  /** The loop body for one entry: the article it yields, or `None` when it
      is skipped. */
  function EntryToArticle(e: FeedEntry): Option<Article>
  {
    var title := Clean(e.title);
    var url := Clean(e.link);
    var summary := EntrySummary(e);
    if title == "" || url == "" then None
    else if !IsStablecoinRelated(title, summary) then None
    else Some(Article(title, url, EntryPublished(e), Prefix(summary, SummaryCap), None))
  }

  /** An entry yields an article exactly when its cleaned title and link are
      non-empty and the filter accepts the cleaned title with the full
      cleaned summary; the article holds the cleaned title and link (the
      raw fields' visible text with every whitespace run made one space,
      see `CleanAround`), at most the first 400 characters of that summary,
      and the fallback publication date. */
  lemma EntryToArticleSpec(e: FeedEntry, r: Option<Article>)
    requires r == EntryToArticle(e)
    ensures r.Some? <==>
      && Clean(e.title) != ""
      && Clean(e.link) != ""
      && IsStablecoinRelated(Clean(e.title), EntrySummary(e))
    ensures r.Some? ==>
      var a := r.value;
      && a.title == Clean(e.title) && a.url == Clean(e.link)
      && a.title != "" && a.url != ""
      && IsCleaned(a.title) && IsCleaned(a.url)
      && NonSpace(a.title) == NonSpace(e.title) && NonSpace(a.url) == NonSpace(e.link)
      && |a.summary| == Min(SummaryCap, |EntrySummary(e)|)
      && a.summary == EntrySummary(e)[..|a.summary|]
      && a.published == EntryPublished(e)
      && a.content == None
  {
  }

  /** The articles of earlier entries come first: accepting `a + b` is
      accepting `a`, then `b`. */
  lemma AcceptedAppend(a: seq<FeedEntry>, b: seq<FeedEntry>)
    ensures Accepted(a + b) == Accepted(a) + Accepted(b)
  {
    AcceptedFlat(a + b);
    AcceptedFlat(a);
    AcceptedFlat(b);
    FlatMapAppend(a, b, ArticleOf);
  }

  /** `Accepted` is the concatenation of every entry's article, if any. */
  lemma {:induction false} AcceptedFlat(es: seq<FeedEntry>)
    ensures Accepted(es) == FlatMap(es, ArticleOf)
    decreases |es|
  {
    if |es| > 0 {
      AcceptedCons(es);
      AcceptedFlat(es[1..]);
    }
  }

  lemma AcceptedCons(es: seq<FeedEntry>)
    requires |es| > 0
    ensures Accepted(es) == ArticleOf(es[0]) + Accepted(es[1..])
  {
  }

  /** The article an entry contributes, if any. */
  function ArticleOf(e: FeedEntry): seq<Article> {
    match EntryToArticle(e)
    case Some(a) => [a]
    case None => []
  }

  /** The articles the loop appends for a list of entries. */
  function Accepted(es: seq<FeedEntry>): seq<Article>
  {
    if |es| == 0 then []
    else
      (match EntryToArticle(es[0])
       case Some(a) => [a]
       case None => [])
      + Accepted(es[1..])
  }

  /** `Accepted` keeps exactly the articles of the entries that pass, at
      most one per entry; `AcceptedAppend` gives their order. */
  lemma {:induction false} AcceptedMembers(es: seq<FeedEntry>)
    ensures |Accepted(es)| <= |es|
    ensures forall a :: a in Accepted(es) <==> exists e :: e in es && EntryToArticle(e) == Some(a)
    decreases |es|
  {
    if |es| > 0 {
      AcceptedMembers(es[1..]);
      forall a | (exists e :: e in es && EntryToArticle(e) == Some(a))
        ensures a in Accepted(es)
      {
        var e :| e in es && EntryToArticle(e) == Some(a);
        if e != es[0] {
          assert e in es[1..];
        }
      }
    }
  }

  /** What one feed contributes: nothing when parsing failed, else the
      accepted articles among its first `limit` entries. */
  function FeedArticles(outcome: FeedOutcome, limit: int): seq<Article>
  {
    match outcome
    case ParseFailed => []
    case Parsed(es) => Accepted(Prefix(es, limit))
  }

  /** What each feed URL contributes, as a function of the URL. */
  function Contribution(parse: string -> FeedOutcome, limit: int): string -> seq<Article>
  {
    u => FeedArticles(parse(u), limit)
  }

  /** `found` after the loop over all feeds. */
  function Gathered(feeds: seq<string>, parse: string -> FeedOutcome, limit: int): seq<Article>
  {
    FlatMap(feeds, Contribution(parse, limit))
  }

  /** `NewsFetcher.fetch`: the gathered articles with the first article for
      each URL kept. */
  function Fetch(feeds: seq<string>, parse: string -> FeedOutcome, limit: int): seq<Article>
  {
    KeepFirst(Gathered(feeds, parse, limit), ArticleUrl, {})
  }

  /** The deduplication loop of `fetch`, with its `seen` set. */
  method DedupeByUrl(found: seq<Article>) returns (deduped: seq<Article>)
    ensures deduped == KeepFirst(found, ArticleUrl, {})
    ensures IsSubseq(deduped, found)
    ensures DistinctKeys(deduped, ArticleUrl)
    ensures forall j :: 0 <= j < |deduped| ==> FindFirst(found, ArticleUrl, deduped[j].url) == Some(deduped[j])
  {
    var seen: set<string> := {};
    deduped := [];
    var i := 0;
    while i < |found|
      invariant 0 <= i <= |found|
      invariant deduped + KeepFirst(found[i..], ArticleUrl, seen) == KeepFirst(found, ArticleUrl, {})
    {
      var a := found[i];
      assert found[i..][1..] == found[i + 1..];
      if a.url in seen {
        i := i + 1;
        continue;
      }
      seen := seen + {a.url};
      deduped := deduped + [a];
      i := i + 1;
    }
    assert found[i..] == [];
    KeepFirstSubseq(found, ArticleUrl, {});
    KeepFirstDistinct(found, ArticleUrl, {});
    KeepFirstIsFirst(found, ArticleUrl, {});
  }

  /** Failure isolation: a feed whose parse fails contributes nothing, so
      the result is as if it had not been listed. */
  lemma FailedFeedContributesNothing(a: seq<string>, u: string, b: seq<string>,
                                     parse: string -> FeedOutcome, limit: int)
    requires parse(u) == ParseFailed
    ensures Fetch(a + [u] + b, parse, limit) == Fetch(a + b, parse, limit)
  {
    FlatMapSkipEmpty(a, u, b, Contribution(parse, limit));
  }

  /** At most `limit` articles come from each feed, so at most
      `|feeds| * limit` in total. */
  lemma GatheredBound(feeds: seq<string>, parse: string -> FeedOutcome, limit: int)
    requires 0 <= limit
    ensures forall u :: u in feeds ==> |FeedArticles(parse(u), limit)| <= limit
    ensures |Gathered(feeds, parse, limit)| <= |feeds| * limit
  {
    var f := Contribution(parse, limit);
    forall u | u in feeds
      ensures |f(u)| <= limit
    {
      match parse(u)
      case ParseFailed =>
      case Parsed(es) =>
        AcceptedMembers(Prefix(es, limit));
    }
    FlatMapBound(feeds, f, limit);
  }

  /** Every gathered article comes from an entry of a feed that parsed,
      within the first `limit` entries of that feed. */
  lemma GatheredOrigin(feeds: seq<string>, parse: string -> FeedOutcome, limit: int)
    ensures forall a :: a in Gathered(feeds, parse, limit) ==>
      exists f, e :: f in feeds && parse(f).Parsed? && e in Prefix(parse(f).entries, limit)
                     && EntryToArticle(e) == Some(a)
  {
    var c := Contribution(parse, limit);
    FlatMapMembers(feeds, c);
    forall a | a in Gathered(feeds, parse, limit)
      ensures exists f, e :: f in feeds && parse(f).Parsed? && e in Prefix(parse(f).entries, limit)
                             && EntryToArticle(e) == Some(a)
    {
      var f :| f in feeds && a in c(f);
      var es := parse(f).entries;
      AcceptedMembers(Prefix(es, limit));
    }
  }

  /** Every article `fetch` returns has a non-empty title and URL and a
      summary of at most 400 characters, and comes from an entry of a feed
      that parsed, within that feed's first `limit` entries, whose cleaned
      title and full cleaned summary passed the filter. */
  lemma FetchArticlesValid(feeds: seq<string>, parse: string -> FeedOutcome, limit: int)
    ensures forall a :: a in Fetch(feeds, parse, limit) ==>
      && a.title != "" && a.url != "" && |a.summary| <= SummaryCap
      && exists f, e :: && f in feeds && parse(f).Parsed?
                        && e in Prefix(parse(f).entries, limit)
                        && EntryToArticle(e) == Some(a)
                        && IsStablecoinRelated(a.title, EntrySummary(e))
  {
    var g := Gathered(feeds, parse, limit);
    var r := Fetch(feeds, parse, limit);
    KeepFirstSubseq(g, ArticleUrl, {});
    SubseqMembers(r, g);
    GatheredOrigin(feeds, parse, limit);
    forall a | a in r
      ensures && a.title != "" && a.url != "" && |a.summary| <= SummaryCap
              && exists f, e :: && f in feeds && parse(f).Parsed?
                                && e in Prefix(parse(f).entries, limit)
                                && EntryToArticle(e) == Some(a)
                                && IsStablecoinRelated(a.title, EntrySummary(e))
    {
      var f, e :| && f in feeds && parse(f).Parsed?
                  && e in Prefix(parse(f).entries, limit)
                  && EntryToArticle(e) == Some(a);
      EntryToArticleSpec(e, Some(a));
    }
  }

  /** Every article `fetch` returns has a cleaned title, URL and date, a
      summary that is the start of a cleaned text (so its only whitespace
      is the plain space), and no extracted text yet. */
  lemma FetchedFieldsCleaned(feeds: seq<string>, parse: string -> FeedOutcome, limit: int)
    ensures forall a :: a in Fetch(feeds, parse, limit) ==>
      && IsCleaned(a.title) && IsCleaned(a.url) && a.url != "" && IsCleaned(a.published)
      && OnlyPlainSpace(a.summary) && a.content == None
  {
    FetchArticlesValid(feeds, parse, limit);
    forall a | a in Fetch(feeds, parse, limit)
      ensures && IsCleaned(a.title) && IsCleaned(a.url) && a.url != "" && IsCleaned(a.published)
              && OnlyPlainSpace(a.summary) && a.content == None
    {
      var f, e :| f in feeds && parse(f).Parsed? && e in Prefix(parse(f).entries, limit)
                  && EntryToArticle(e) == Some(a);
      AcceptedFieldsCleaned(e, a);
    }
  }

  lemma AcceptedFieldsCleaned(e: FeedEntry, a: Article)
    requires EntryToArticle(e) == Some(a)
    ensures && IsCleaned(a.title) && IsCleaned(a.url) && a.url != "" && IsCleaned(a.published)
            && OnlyPlainSpace(a.summary) && a.content == None
  {
    EntryToArticleSpec(e, Some(a));
    var full := EntrySummary(e);
    assert forall i :: 0 <= i < |a.summary| ==> a.summary[i] == full[i];
  }

  /** The URLs `fetch` returns are pairwise distinct, the output is an
      order-preserving subsequence of the accepted articles, and the
      article kept for each URL is the first accepted one with that URL. */
  lemma FetchDeduplicates(feeds: seq<string>, parse: string -> FeedOutcome, limit: int)
    ensures var r := Fetch(feeds, parse, limit);
      var g := Gathered(feeds, parse, limit);
      && DistinctKeys(r, ArticleUrl)
      && IsSubseq(r, g)
      && forall j :: 0 <= j < |r| ==> FindFirst(g, ArticleUrl, r[j].url) == Some(r[j])
  {
    var g := Gathered(feeds, parse, limit);
    KeepFirstSubseq(g, ArticleUrl, {});
    KeepFirstDistinct(g, ArticleUrl, {});
    KeepFirstIsFirst(g, ArticleUrl, {});
  }

  /** Every accepted URL survives deduplication. */
  lemma FetchKeepsEveryUrl(feeds: seq<string>, parse: string -> FeedOutcome, limit: int)
    ensures var g := Gathered(feeds, parse, limit);
      forall i :: 0 <= i < |g| ==> HasKey(Fetch(feeds, parse, limit), ArticleUrl, g[i].url)
  {
    KeepFirstComplete(Gathered(feeds, parse, limit), ArticleUrl, {});
  }

  /** With a non-negative `limit`, `fetch` returns at most
      `len(feeds) * limit` articles in total. */
  lemma FetchBound(feeds: seq<string>, parse: string -> FeedOutcome, limit: int)
    requires 0 <= limit
    ensures |Fetch(feeds, parse, limit)| <= |feeds| * limit
  {
    var g := Gathered(feeds, parse, limit);
    KeepFirstLength(g, ArticleUrl, {});
    GatheredBound(feeds, parse, limit);
  }

  /** The summary falls back to `description` and the date to `updated`
      only when the raw primary field is empty; a primary field of pure
      whitespace is used, and cleans to the empty string. */
  lemma FallbackRules(e: FeedEntry)
    ensures e.summary != "" ==> EntrySummary(e) == Clean(e.summary)
    ensures e.summary == "" ==> EntrySummary(e) == Clean(e.description)
    ensures e.published != "" ==> EntryPublished(e) == Clean(e.published)
    ensures e.published == "" ==> EntryPublished(e) == Clean(e.updated)
    ensures e.summary != "" && AllSpace(e.summary) ==> EntrySummary(e) == ""
  {
    if e.summary != "" && AllSpace(e.summary) {
      NonSpaceOfSpace(e.summary);
    }
  }

  lemma KeywordInitials()
    ensures forall j :: 0 <= j < |Keywords| ==>
      |Keywords[j]| > 0 && Keywords[j][0] != 'z' && Keywords[j][0] != ' '
  {
  }

  lemma NotAZ(t: string, c: char)
    requires forall i :: 0 <= i < |t| ==> t[i] == 'z' || t[i] == ' '
    requires c != 'z' && c != ' '
    ensures c !in t
  {
  }

  lemma {:induction false} NoInitialNoKeyword(t: string, ks: seq<string>)
    requires forall j :: 0 <= j < |ks| ==> |ks[j]| > 0 && ks[j][0] !in t
    ensures !AnyKeyword(t, ks)
    decreases |ks|
  {
    if |ks| > 0 {
      MissingCharNotContained(t, ks[0], 0);
      NoInitialNoKeyword(t, ks[1..]);
    }
  }

  /** Text made only of `z` and spaces contains none of the patterns
      `ks`, when each of them starts with another character. */
  lemma NoKeywordInZs(t: string, ks: seq<string>)
    requires forall i :: 0 <= i < |t| ==> t[i] == 'z' || t[i] == ' '
    requires forall j :: 0 <= j < |ks| ==> |ks[j]| > 0 && ks[j][0] != 'z' && ks[j][0] != ' '
    ensures !AnyKeyword(t, ks)
  {
    forall j | 0 <= j < |ks|
      ensures |ks[j]| > 0 && ks[j][0] !in t
    {
      NotAZ(t, ks[j][0]);
    }
    NoInitialNoKeyword(t, ks);
  }

  /** A run of `z` exactly as long as the summary cap. */
  ghost predicate IsPad(pad: string) {
    |pad| == SummaryCap && forall i :: 0 <= i < |pad| ==> pad[i] == 'z'
  }

  /** The witness entry: a title without keywords and a summary whose only
      keyword starts after character 400. */
  function CapWitness(pad: string): FeedEntry {
    FeedEntry("z", "u", pad + " usdc", "", "", "")
  }

  lemma CapWitnessSummary(pad: string)
    requires IsPad(pad)
    ensures EntrySummary(CapWitness(pad)) == pad + " usdc"
  {
    var raw := pad + " usdc";
    assert OrElse(raw, "") == raw;
    assert forall i :: 0 <= i < |raw| && i != SummaryCap ==> !IsSpace(raw[i]);
    assert IsCleaned(raw);
  }

  lemma CapWitnessRelated(pad: string)
    requires IsPad(pad)
    ensures IsStablecoinRelated("z", pad + " usdc")
  {
    var raw := pad + " usdc";
    var text := FilterText("z", raw);
    assert text[|text| - 4..] == "usdc" by {
      assert ("z " + raw)[|text| - 4..] == "usdc";
    }
    assert OccursAt(text, "usdc", |text| - 4);
    assert Keywords[12] == "usdc";
    RelatedIffKeywordOccurs("z", raw);
  }

  lemma CapWitnessAccepted(pad: string)
    requires IsPad(pad)
    ensures EntryToArticle(CapWitness(pad)).Some?
    ensures EntryToArticle(CapWitness(pad)).value.title == "z"
    ensures EntryToArticle(CapWitness(pad)).value.summary == pad
  {
    var e := CapWitness(pad);
    CapWitnessSummary(pad);
    CapWitnessRelated(pad);
    CleanLetter('z');
    CleanLetter('u');
    assert (pad + " usdc")[..SummaryCap] == pad;
    assert Prefix(EntrySummary(e), SummaryCap) == pad;
  }

  lemma CleanLetter(c: char)
    requires !IsSpace(c)
    ensures Clean([c]) == [c]
  {
    assert IsCleaned([c]);
  }

  /** The stored summary is only a prefix of the text the filter saw: an
      entry can pass on a keyword that lies beyond the 400-character cap,
      leaving an article whose own title and summary would not pass again. */
  lemma StoredSummaryNeedNotPass(pad: string)
    requires IsPad(pad)
    ensures EntryToArticle(CapWitness(pad)).Some?
    ensures !IsStablecoinRelated(EntryToArticle(CapWitness(pad)).value.title,
                                 EntryToArticle(CapWitness(pad)).value.summary)
  {
    CapWitnessAccepted(pad);
    PadNotRelated(pad);
  }

  lemma PadNotRelated(pad: string)
    requires IsPad(pad)
    ensures !IsStablecoinRelated("z", pad)
  {
    var t := FilterText("z", pad);
    assert forall i :: 0 <= i < |t| ==> t[i] == LowerChar(("z " + pad)[i]);
    KeywordInitials();
    NoKeywordInZs(t, Keywords);
  }

  /** Default cap of `ArticleExtractor.extract`. */
  const ExtractMaxChars: int := 3000

  /** What fetching one article page produced: the request raised, or a
      response with its status code and the text the extraction library
      returned for it (`None` when it found none or raised). */
  datatype PageFetch = RequestFailed | Page(status: int, extracted: Option<string>)

  /** The decision part of `ArticleExtractor.extract`. */
  function Extract(page: PageFetch, maxChars: int): (r: Option<string>)
    ensures r.None? <==>
      || page.RequestFailed?
      || page.status >= 400
      || page.extracted.None?
      || page.extracted.value == ""
    ensures r.Some? ==>
      var full := Clean(page.extracted.value);
      && |r.value| <= |full| && r.value == full[..|r.value|]
      && (0 <= maxChars ==> |r.value| == Min(maxChars, |full|))
      && NoDoubleSpace(r.value) && OnlyPlainSpace(r.value)
      && (r.value == [] || !IsSpace(r.value[0]))
  {
    match page
    case RequestFailed => None
    case Page(status, extracted) =>
      if status >= 400 then None
      else if extracted.None? || extracted.value == "" then None
      else
        var full := Clean(extracted.value);
        var r := Prefix(full, maxChars);
        assert forall i :: 0 <= i < |r| ==> r[i] == full[i];
        Some(r)
  }
}
