/** run_daily.py, `main` and `dedupe_by_key`: one scheduled run, from its
    settings and what the fetchers return to either a "no items" notice or a
    draft request for the writer with the list of sources. The environment,
    the feeds, the article pages and the writer are inputs. */
module DailyRun {
  import opened Options
  import opened Seqs
  import opened Text
  import opened Dedup
  import opened Feed
  import opened NewsFetch
  import opened GoogleNews
  import opened Briefs

  // ----- dedupe_by_key -----

  /** `dedupe_by_key(items, key)`: drops items whose key is empty or was
      seen before, keeping the first item of every non-empty key in input
      order. */
  method DedupeByKey<T>(items: seq<T>, key: T -> string) returns (out: seq<T>)
    ensures out == KeepFirst(items, key, {""})
    ensures IsSubseq(out, items)
    ensures DistinctKeys(out, key)
    ensures forall j :: 0 <= j < |out| ==> key(out[j]) != ""
    ensures forall i :: 0 <= i < |items| && key(items[i]) != "" ==> HasKey(out, key, key(items[i]))
    ensures forall j :: 0 <= j < |out| ==> FindFirst(items, key, key(out[j])) == Some(out[j])
  {
    var seen: set<string> := {};
    out := [];
    var i := 0;
    assert items[0..] == items && seen + {""} == {""};
    while i < |items|
      invariant 0 <= i <= |items|
      invariant out + KeepFirst(items[i..], key, seen + {""}) == KeepFirst(items, key, {""})
    {
      var v := key(items[i]);
      assert items[i..][1..] == items[i + 1..];
      if v == "" || v in seen {
        i := i + 1;
        continue;
      }
      assert seen + {""} + {v} == (seen + {v}) + {""};
      seen := seen + {v};
      out := out + [items[i]];
      i := i + 1;
    }
    assert items[i..] == [];
    KeepFirstSubseq(items, key, {""});
    KeepFirstDistinct(items, key, {""});
    KeepFirstComplete(items, key, {""});
    KeepFirstIsFirst(items, key, {""});
  }

  function Link(n: SearchItem): string { n.link }

  // ----- Settings -----

  /** `os.getenv(name, default).strip().lower()` for a variable that is set
      to `raw`, or unset. */
  function Setting(raw: Option<string>, default: string): string {
    Lower(Strip(raw.GetOr(default)))
  }

  datatype NewsMode = Regular | Launches | Both

  function ModeName(m: NewsMode): string {
    match m
    case Regular => "regular"
    case Launches => "launches"
    case Both => "both"
  }

  /** `NEWS_MODE`, defaulting to `both`, stripped and lower-cased; a value
      other than `regular`, `launches` or `both` becomes `both`. */
  function NormaliseMode(raw: Option<string>): (m: NewsMode)
    ensures m == Regular <==> Setting(raw, "both") == "regular"
    ensures m == Launches <==> Setting(raw, "both") == "launches"
  {
    var s := Setting(raw, "both");
    if s == "regular" then Regular else if s == "launches" then Launches else Both
  }

  /** Each mode's own name selects it. */
  lemma ModeNameSelectsMode(m: NewsMode)
    ensures NormaliseMode(Some(ModeName(m))) == m
  {
    var s := ModeName(m);
    assert forall i :: 0 <= i < |s| ==> 'a' <= s[i] <= 'z';
    PlainSetting(s, "both");
  }

  /** A lower-case word is read back as it is. */
  lemma PlainSetting(s: string, default: string)
    requires |s| > 0 && forall i :: 0 <= i < |s| ==> 'a' <= s[i] <= 'z'
    ensures Setting(Some(s), default) == s
  {
    assert !IsSpace(s[0]) && !IsSpace(s[|s| - 1]);
    assert Strip(s) == s;
    assert forall i :: 0 <= i < |s| ==> LowerChar(s[i]) == s[i];
    assert Lower(s) == s;
  }

  /** `RUN_SLOT`, defaulting to `morning`, stripped and lower-cased. */
  function NormaliseSlot(raw: Option<string>): string {
    Setting(raw, "morning")
  }

  const MorningStyle: string :=
    "like a morning briefing: crisp, headline-driven, \U{2018}what happened + why it matters\U{2019}"
  const EveningStyle: string :=
    "like an evening wrap-up: reflective, risk-aware, \U{2018}what to watch next\U{2019}"
  const MorningHint: string := "Focus more on " + "regular stablecoin market/news updates."
  const EveningHint: string := "Focus more on " + "newly announced/launched stablecoins and what to watch."

  /** `SLOT_STYLES.get(run_slot, SLOT_STYLES["morning"])`. */
  function SlotStyle(slot: string): string {
    if slot == "evening" then EveningStyle else MorningStyle
  }

  /** `DEFAULT_SLOT_TOPIC_HINT.get(run_slot, "")`. */
  function SlotTopicHint(slot: string): string {
    if slot == "morning" then MorningHint else if slot == "evening" then EveningHint else ""
  }

  /** A slot other than `morning` and `evening` is written in the morning
      style with no topic hint; the two known slots get different, non-empty
      hints with no surrounding whitespace. */
  lemma SlotDefaults(slot: string)
    ensures slot != "morning" && slot != "evening" ==>
      SlotStyle(slot) == MorningStyle && SlotTopicHint(slot) == ""
    ensures SlotStyle("evening") != SlotStyle("morning")
    ensures SlotTopicHint("morning") != SlotTopicHint("evening")
    ensures slot == "morning" || slot == "evening" ==>
      SlotTopicHint(slot) != "" && NoEdgeSpace(SlotTopicHint(slot))
  {
    assert |MorningHint| != |EveningHint|;
    assert |MorningStyle| != |EveningStyle|;
    assert MorningHint[0] == 'F' && MorningHint[|MorningHint| - 1] == '.';
    assert EveningHint[0] == 'F' && EveningHint[|EveningHint| - 1] == '.';
  }

  /** Every topic hint is free of surrounding whitespace. */
  lemma HintsClean(slot: string)
    ensures NoEdgeSpace(SlotTopicHint(slot))
  {
    assert MorningHint[0] == 'F' && MorningHint[|MorningHint| - 1] == '.';
    assert EveningHint[0] == 'F' && EveningHint[|EveningHint| - 1] == '.';
  }

  /** The tuning knobs, already parsed as integers. */
  datatype Caps = Caps(maxArticles: int, maxLaunchItems: int, limitPerFeed: int, perQueryItems: int)

  // ----- Sections -----

  datatype Source = Source(title: string, url: string)

  /** A brief with the sources it was built from. */
  datatype Section = Section(brief: string, sources: seq<Source>)

  const NoSection: Section := Section("", [])

  /** The chosen articles with the text extracted from their pages. */
  function WithContent(top: seq<Article>, page: string -> PageFetch): (r: seq<Article>)
    ensures |r| == |top|
    ensures forall i :: 0 <= i < |top| ==>
      r[i] == top[i].(content := Extract(page(top[i].url), ExtractMaxChars))
  {
    seq(|top|, i requires 0 <= i < |top| => top[i].(content := Extract(page(top[i].url), ExtractMaxChars)))
  }

  function ArticleSources(top: seq<Article>): (r: seq<Source>)
    ensures |r| == |top|
    ensures forall i :: 0 <= i < |top| ==> r[i] == Source(top[i].title, top[i].url)
  {
    seq(|top|, i requires 0 <= i < |top| => Source(top[i].title, top[i].url))
  }

  /** The regular part of a run: the first `max_articles` fetched articles
      (Python slice semantics), each with its extracted text; nothing when
      the fetch found nothing. */
  function RegularSection(feeds: seq<string>, parse: string -> FeedOutcome,
                          page: string -> PageFetch, caps: Caps): Section
  {
    var items := Fetch(feeds, parse, caps.limitPerFeed);
    if |items| == 0 then NoSection
    else
      var top := Prefix(items, caps.maxArticles);
      Section(BuildRegularNewsBrief(WithContent(top, page)), ArticleSources(top))
  }

  /** The regular brief is empty exactly when no article is chosen, its
      sources are the chosen articles in fetch order, at most
      `max_articles` of them, and every one has a non-empty URL. */
  lemma RegularSectionSpec(feeds: seq<string>, parse: string -> FeedOutcome,
                           page: string -> PageFetch, caps: Caps)
    ensures var r := RegularSection(feeds, parse, page, caps);
      var top := Prefix(Fetch(feeds, parse, caps.limitPerFeed), caps.maxArticles);
      && (r.brief == "" <==> |top| == 0)
      && |r.sources| == |top|
      && (caps.maxArticles >= 0 ==> |r.sources| <= caps.maxArticles)
      && forall j :: 0 <= j < |r.sources| ==>
           r.sources[j] == Source(top[j].title, top[j].url) && top[j].url != ""
  {
    var items := Fetch(feeds, parse, caps.limitPerFeed);
    var top := Prefix(items, caps.maxArticles);
    FetchUrlsNonEmpty(feeds, parse, caps.limitPerFeed);
    assert forall j :: 0 <= j < |top| ==> top[j] == items[j];
  }

  /** The regular brief, read line by line, has the heading `n) t` exactly
      when the `n`-th chosen article has title `t`. */
  lemma RegularSectionHeadings(feeds: seq<string>, parse: string -> FeedOutcome,
                               page: string -> PageFetch, caps: Caps, n: nat, t: string)
    ensures var top := Prefix(Fetch(feeds, parse, caps.limitPerFeed), caps.maxArticles);
      Heading(n, t) in Split(RegularSection(feeds, parse, page, caps).brief, '\n') <==>
        1 <= n <= |top| && t == top[n - 1].title
  {
    var items := Fetch(feeds, parse, caps.limitPerFeed);
    var top := Prefix(items, caps.maxArticles);
    var arts := WithContent(top, page);
    ChosenSingleLine(feeds, parse, page, caps);
    RegularBriefHeadings(arts, n, t);
    if |items| == 0 {
      assert RegularSection(feeds, parse, page, caps).brief == BuildRegularNewsBrief([]);
    }
  }

  /** The regular brief, read line by line, has the line `URL: u` exactly
      when some chosen article has URL `u`. */
  lemma RegularSectionUrls(feeds: seq<string>, parse: string -> FeedOutcome,
                           page: string -> PageFetch, caps: Caps, u: string)
    ensures var top := Prefix(Fetch(feeds, parse, caps.limitPerFeed), caps.maxArticles);
      ("URL: " + u) in Split(RegularSection(feeds, parse, page, caps).brief, '\n') <==>
        exists j :: 0 <= j < |top| && top[j].url == u
  {
    var items := Fetch(feeds, parse, caps.limitPerFeed);
    var top := Prefix(items, caps.maxArticles);
    var arts := WithContent(top, page);
    ChosenSingleLine(feeds, parse, page, caps);
    RegularBriefUrls(arts, u);
    if |items| == 0 {
      assert RegularSection(feeds, parse, page, caps).brief == BuildRegularNewsBrief([]);
    }
  }

  /** The chosen articles, with their extracted text, are on one line each
      and have non-empty URLs without surrounding whitespace. */
  lemma ChosenSingleLine(feeds: seq<string>, parse: string -> FeedOutcome,
                         page: string -> PageFetch, caps: Caps)
    ensures var top := Prefix(Fetch(feeds, parse, caps.limitPerFeed), caps.maxArticles);
      var arts := WithContent(top, page);
      && (forall j :: 0 <= j < |arts| ==> SingleLineArticle(arts[j]))
      && (forall j :: 0 <= j < |arts| ==> arts[j].url != "" && NoEdgeSpace(arts[j].url))
      && (forall j :: 0 <= j < |arts| ==> arts[j].title == top[j].title && arts[j].url == top[j].url)
  {
    var items := Fetch(feeds, parse, caps.limitPerFeed);
    var top := Prefix(items, caps.maxArticles);
    var arts := WithContent(top, page);
    FetchedFieldsCleaned(feeds, parse, caps.limitPerFeed);
    forall j | 0 <= j < |arts|
      ensures SingleLineArticle(arts[j]) && arts[j].url != "" && NoEdgeSpace(arts[j].url)
    {
      assert top[j] == items[j] && items[j] in items;
      WithContentSingleLine(top[j], page);
    }
  }

  lemma WithContentSingleLine(a: Article, page: string -> PageFetch)
    requires IsCleaned(a.title) && IsCleaned(a.url) && a.url != "" && IsCleaned(a.published)
    requires OnlyPlainSpace(a.summary)
    ensures SingleLineArticle(a.(content := Extract(page(a.url), ExtractMaxChars)))
  {
    PlainSpaceSingleLine(a.title);
    PlainSpaceSingleLine(a.url);
    PlainSpaceSingleLine(a.published);
    PlainSpaceSingleLine(a.summary);
    var c := Extract(page(a.url), ExtractMaxChars);
    if c.Some? {
      PlainSpaceSingleLine(c.value);
    }
  }

  lemma FetchUrlsNonEmpty(feeds: seq<string>, parse: string -> FeedOutcome, limit: int)
    ensures forall j :: 0 <= j < |Fetch(feeds, parse, limit)| ==> Fetch(feeds, parse, limit)[j].url != ""
  {
    FetchArticlesValid(feeds, parse, limit);
  }

  /** The launch search: the items of every query, in query order; `None`
      when a search feed raised, which ends the run. */
  function SearchAll(queries: seq<string>, perQuery: int, parse: string -> FeedOutcome)
    : Option<seq<SearchItem>>
    decreases |queries|
  {
    if |queries| == 0 then Some([])
    else
      match FetchGoogleNews(queries[0], perQuery, parse)
      case None => None
      case Some(hits) =>
        match SearchAll(queries[1..], perQuery, parse)
        case None => None
        case Some(rest) => Some(hits + rest)
  }

  /** The search fails exactly when the search feed of some query
      raised. */
  lemma {:induction false} SearchAllFails(queries: seq<string>, perQuery: int, parse: string -> FeedOutcome)
    ensures SearchAll(queries, perQuery, parse).None? <==>
      exists k :: 0 <= k < |queries| && parse(SearchUrl(queries[k])).ParseFailed?
    decreases |queries|
  {
    if |queries| > 0 {
      SearchAllFails(queries[1..], perQuery, parse);
      if exists k :: 0 <= k < |queries| && parse(SearchUrl(queries[k])).ParseFailed? {
        var k :| 0 <= k < |queries| && parse(SearchUrl(queries[k])).ParseFailed?;
        if k > 0 {
          assert queries[1..][k - 1] == queries[k];
        }
      }
      if exists k :: 0 <= k < |queries| - 1 && parse(SearchUrl(queries[1..][k])).ParseFailed? {
        var k :| 0 <= k < |queries| - 1 && parse(SearchUrl(queries[1..][k])).ParseFailed?;
        assert queries[k + 1] == queries[1..][k];
      }
    }
  }

  /** A search that succeeds holds at most `per_query_items` items per
      query. */
  lemma {:induction false} SearchAllBound(queries: seq<string>, perQuery: int, parse: string -> FeedOutcome)
    requires perQuery >= 0 && SearchAll(queries, perQuery, parse).Some?
    ensures |SearchAll(queries, perQuery, parse).value| <= |queries| * perQuery
    decreases |queries|
  {
    if |queries| > 0 {
      var hits := FetchGoogleNews(queries[0], perQuery, parse);
      var rest := SearchAll(queries[1..], perQuery, parse);
      assert hits.Some? && rest.Some?;
      assert SearchAll(queries, perQuery, parse).value == hits.value + rest.value;
      SearchAllBound(queries[1..], perQuery, parse);
      MulSucc(|queries| - 1, perQuery);
    }
  }

  function LinkSources(top: seq<SearchItem>): (r: seq<Source>)
    ensures |r| == |top|
    ensures forall i :: 0 <= i < |top| ==> r[i] == Source(top[i].title, top[i].link)
  {
    seq(|top|, i requires 0 <= i < |top| => Source(top[i].title, top[i].link))
  }

  /** The search items a run keeps: deduplicated by link, then the first
      `max_launch_items`. */
  function LaunchTop(hits: seq<SearchItem>, caps: Caps): seq<SearchItem> {
    Prefix(KeepFirst(hits, Link, {""}), caps.maxLaunchItems)
  }

  /** The launch part of a run: the brief of the kept search items and
      their raw titles and links; nothing when no item is kept. */
  function LaunchSection(hits: seq<SearchItem>, caps: Caps): Section {
    var top := LaunchTop(hits, caps);
    if |top| == 0 then NoSection
    else Section(BuildLaunchNewsBrief(top), LinkSources(top))
  }

  /** The launch brief is empty exactly when none of the kept items has a
      non-empty stripped title and link; the sources are the kept items, at
      most `max_launch_items`, with distinct, non-empty links, each the
      first item in the search results with that link. */
  lemma LaunchSectionSpec(hits: seq<SearchItem>, caps: Caps)
    ensures var r := LaunchSection(hits, caps);
      var top := LaunchTop(hits, caps);
      && (r.brief == "" <==> forall j :: 0 <= j < |top| ==> !Kept(top[j]))
      && |r.sources| == |top|
      && (caps.maxLaunchItems >= 0 ==> |r.sources| <= caps.maxLaunchItems)
      && (forall j :: 0 <= j < |r.sources| ==>
           && r.sources[j] == Source(top[j].title, top[j].link)
           && top[j].link != ""
           && FindFirst(hits, Link, top[j].link) == Some(top[j]))
      && forall i, j :: 0 <= i < j < |r.sources| ==> r.sources[i].url != r.sources[j].url
  {
    LaunchTopSpec(hits, caps);
  }

  lemma LaunchTopSpec(hits: seq<SearchItem>, caps: Caps)
    ensures var top := LaunchTop(hits, caps);
      && (caps.maxLaunchItems >= 0 ==> |top| <= caps.maxLaunchItems)
      && (forall j :: 0 <= j < |top| ==> top[j].link != "" && FindFirst(hits, Link, top[j].link) == Some(top[j]))
      && forall i, j :: 0 <= i < j < |top| ==> top[i].link != top[j].link
  {
    var d := KeepFirst(hits, Link, {""});
    var top := LaunchTop(hits, caps);
    KeepFirstDistinct(hits, Link, {""});
    KeepFirstIsFirst(hits, Link, {""});
    assert forall j :: 0 <= j < |top| ==> top[j] == d[j];
  }

  // ----- The "no items" rule -----

  predicate WantsRegular(m: NewsMode) { m == Regular || m == Both }
  predicate WantsLaunches(m: NewsMode) { m == Launches || m == Both }

  /** The condition of the "no items" notice as written: a mode that wants
      regular news with an empty regular brief AND a mode that wants
      launches with an empty launch brief, which only `both` can meet. */
  predicate IsNoItems(m: NewsMode, regularBrief: string, launchBrief: string) {
    && (WantsRegular(m) && regularBrief == "")
    && (WantsLaunches(m) && launchBrief == "")
  }

  // ----- The combined brief -----

  const RegularHeader: string := "REGULAR STABLECOIN NEWS (RSS):\n"
  const LaunchHeader: string := "NEW STABLECOIN LAUNCHES / " + "ANNOUNCEMENTS (Google News RSS):\n"

  /** The non-empty briefs under their headers, regular first. */
  function Sections(regularBrief: string, launchBrief: string): seq<string> {
    (if regularBrief != "" then [RegularHeader + regularBrief] else [])
    + (if launchBrief != "" then [LaunchHeader + launchBrief] else [])
  }

  /** The brief the writer receives: the sections joined by blank lines and
      stripped, then the slot hint and a blank line in front, stripped
      again. */
  function CombineBriefs(hint: string, regularBrief: string, launchBrief: string): string {
    Strip(hint + "\n\n" + Strip(Join(Sections(regularBrief, launchBrief), "\n\n")))
  }

  lemma SectionsShape(regularBrief: string, launchBrief: string)
    requires NoEdgeSpace(regularBrief) && NoEdgeSpace(launchBrief)
    ensures var s := Sections(regularBrief, launchBrief);
      forall k :: 0 <= k < |s| ==> s[k] != "" && NoEdgeSpace(s[k])
  {
    HeaderedShape(RegularHeader, regularBrief);
    HeaderedShape(LaunchHeader, launchBrief);
  }

  lemma HeaderedShape(header: string, brief: string)
    requires |header| > 0 && !IsSpace(header[0]) && NoEdgeSpace(brief)
    ensures brief != "" ==> header + brief != "" && NoEdgeSpace(header + brief)
  {
    if brief != "" {
      var t := header + brief;
      assert t[0] == header[0];
      assert t[|t| - 1] == brief[|brief| - 1];
    }
  }

  /** With the two briefs and the hint free of surrounding whitespace (as
      the builders and both hints are), the combined brief is exactly the
      hint when there is one, then the non-empty sections, regular before
      launches, separated by blank lines. */
  lemma CombineLayout(hint: string, regularBrief: string, launchBrief: string)
    requires NoEdgeSpace(hint) && NoEdgeSpace(regularBrief) && NoEdgeSpace(launchBrief)
    ensures CombineBriefs(hint, regularBrief, launchBrief) ==
      Join((if hint != "" then [hint] else []) + Sections(regularBrief, launchBrief), "\n\n")
  {
    var s := Sections(regularBrief, launchBrief);
    SectionsShape(regularBrief, launchBrief);
    JoinTwoShape(s);
    HintInFront(hint, s);
  }

  lemma HintInFront(hint: string, s: seq<string>)
    requires NoEdgeSpace(hint) && NoEdgeSpace(Join(s, "\n\n"))
    requires forall k :: 0 <= k < |s| ==> s[k] != ""
    ensures Strip(hint + "\n\n" + Strip(Join(s, "\n\n"))) ==
      Join((if hint != "" then [hint] else []) + s, "\n\n")
  {
    if hint == "" {
      NoHint(s);
    } else if |s| == 0 {
      HintOnly(hint, s);
    } else {
      HintAndSections(hint, s);
    }
  }

  lemma NoHint(s: seq<string>)
    requires NoEdgeSpace(Join(s, "\n\n"))
    ensures Strip("" + "\n\n" + Strip(Join(s, "\n\n"))) == Join([] + s, "\n\n")
  {
    HintThenBody("", Join(s, "\n\n"));
    assert [] + s == s;
  }

  lemma HintOnly(hint: string, s: seq<string>)
    requires NoEdgeSpace(hint) && hint != "" && |s| == 0
    ensures Strip(hint + "\n\n" + Strip(Join(s, "\n\n"))) == Join([hint] + s, "\n\n")
  {
    HintThenBody(hint, Join(s, "\n\n"));
    assert [hint] + s == [hint];
  }

  lemma HintAndSections(hint: string, s: seq<string>)
    requires NoEdgeSpace(hint) && NoEdgeSpace(Join(s, "\n\n"))
    requires hint != "" && |s| > 0 && s[0] != ""
    ensures Strip(hint + "\n\n" + Strip(Join(s, "\n\n"))) == Join([hint] + s, "\n\n")
  {
    var body := Join(s, "\n\n");
    HintThenBody(hint, body);
    assert body != "" by { assert StartsWith(body, s[0]); }
    JoinCons(hint, s, "\n\n");
  }

  /** `_clean(hint + "\n\n" + body)` for a hint and body with no
      surrounding whitespace: the separator disappears when either side is
      empty. */
  lemma HintThenBody(hint: string, body: string)
    requires NoEdgeSpace(hint) && NoEdgeSpace(body)
    ensures Strip(hint + "\n\n" + Strip(body)) ==
      if hint == "" then body else if body == "" then hint else hint + "\n\n" + body
  {
    var sep := "\n\n";
    assert Strip(body) == body;
    assert AllSpace(sep) by { assert IsSpace('\n'); }
    if hint == "" {
      StripPadded(sep, body, "");
      assert sep + body + "" == hint + sep + body;
    } else if body == "" {
      StripPadded("", hint, sep);
      assert "" + hint + sep == hint + sep + body;
    } else {
      var t := hint + sep + body;
      assert t[0] == hint[0] && t[|t| - 1] == body[|body| - 1];
    }
  }

  lemma JoinCons(first: string, rest: seq<string>, sep: string)
    requires |rest| > 0
    ensures Join([first] + rest, sep) == first + sep + Join(rest, sep)
  {
    assert ([first] + rest)[1..] == rest;
  }

  /** Up to two non-empty parts with no surrounding whitespace join into
      text with none either. */
  lemma JoinTwoShape(s: seq<string>)
    requires |s| <= 2
    requires forall k :: 0 <= k < |s| ==> s[k] != "" && NoEdgeSpace(s[k])
    ensures NoEdgeSpace(Join(s, "\n\n"))
  {
    if |s| == 2 {
      assert s == [s[0], s[1]];
      JoinPair(s[0], s[1], "\n\n");
      EdgesJoined(s[0], "\n\n", s[1]);
    }
  }

  lemma JoinPair(a: string, b: string, sep: string)
    ensures Join([a, b], sep) == a + sep + b
  {
    assert [a, b][1..] == [b];
  }

  lemma EdgesJoined(a: string, sep: string, b: string)
    requires a != "" && b != "" && NoEdgeSpace(a) && NoEdgeSpace(b)
    ensures NoEdgeSpace(a + sep + b)
  {
    var t := a + sep + b;
    assert t[0] == a[0];
    assert t[|t| - 1] == b[|b| - 1];
  }

  // ----- Sources -----

  /** `f"- {title} — {url}"`. */
  function SourceLine(s: Source): string {
    "- " + s.title + " \U{2014} " + s.url
  }

  /** The lines of the sources that have a URL, in order. */
  function Listed(sources: seq<Source>): (r: seq<string>)
    ensures |r| <= |sources|
    decreases |sources|
  {
    if |sources| == 0 then []
    else (if sources[0].url != "" then [SourceLine(sources[0])] else []) + Listed(sources[1..])
  }

  /** A line is listed exactly when it is the line of a source with a
      non-empty URL. */
  lemma {:induction false} ListedMembers(sources: seq<Source>, line: string)
    ensures line in Listed(sources) <==>
      exists j :: 0 <= j < |sources| && sources[j].url != "" && line == SourceLine(sources[j])
    decreases |sources|
  {
    if |sources| > 0 {
      ListedMembers(sources[1..], line);
      if line in Listed(sources[1..]) {
        var j :| 0 <= j < |sources| - 1 && sources[1..][j].url != "" && line == SourceLine(sources[1..][j]);
        assert sources[j + 1] == sources[1..][j];
      }
      if j :| 0 <= j < |sources| && sources[j].url != "" && line == SourceLine(sources[j]) {
        if j > 0 {
          assert sources[1..][j - 1] == sources[j];
        }
      }
    }
  }

  /** When every source has a URL, each is listed, in order. */
  lemma {:induction false} ListedAll(sources: seq<Source>)
    requires forall j :: 0 <= j < |sources| ==> sources[j].url != ""
    ensures |Listed(sources)| == |sources|
    ensures forall j :: 0 <= j < |sources| ==> Listed(sources)[j] == SourceLine(sources[j])
    decreases |sources|
  {
    if |sources| > 0 {
      ListedAll(sources[1..]);
    }
  }

  /** The source list of the email: the regular sources under their
      heading, then the launch sources under theirs, each heading present
      only when that part has sources. */
  function SourceLines(regular: seq<Source>, launch: seq<Source>): seq<string> {
    (if |regular| > 0 then ["Regular sources:"] + Listed(regular) else [])
    + (if |launch| > 0 then ["Launch/announcement sources:"] + Listed(launch) else [])
  }

  /** A source line is in the list exactly when it belongs to a regular or
      launch source with a non-empty URL, and all regular lines come before
      all launch lines. */
  lemma SourceLinesSpec(regular: seq<Source>, launch: seq<Source>, line: string)
    ensures var r := SourceLines(regular, launch);
      && (line in r && line != "Regular sources:" && line != "Launch/announcement sources:" <==>
            || (exists j :: 0 <= j < |regular| && regular[j].url != "" && line == SourceLine(regular[j]))
            || (exists j :: 0 <= j < |launch| && launch[j].url != "" && line == SourceLine(launch[j])))
      && (|regular| > 0 ==> r[..1 + |Listed(regular)|] == ["Regular sources:"] + Listed(regular))
  {
    ListedMembers(regular, line);
    ListedMembers(launch, line);
    forall s: Source ensures SourceLine(s) != "Regular sources:" && SourceLine(s) != "Launch/announcement sources:" {
      assert SourceLine(s)[0] == '-';
    }
  }

  // ----- One run -----

  /** What the writer is asked for. */
  datatype WriterRequest = WriterRequest(brief: string, languageMode: string, runSlot: string, slotStyle: string)

  /** The run's settings as read from the environment: each text variable
      set to a value or unset, and the caps already parsed. */
  datatype Settings = Settings(
    apiKey: Option<string>,
    runSlot: Option<string>,
    newsMode: Option<string>,
    languageMode: Option<string>,
    caps: Caps)

  /** What the run reads from outside: the RSS feeds and search queries,
      the feed parser, the article pages, the writer and the clock (the
      ISO-8601 UTC time at the start of the run). */
  datatype World = World(
    feeds: seq<string>,
    queries: seq<string>,
    parse: string -> FeedOutcome,
    page: string -> PageFetch,
    write: WriterRequest -> string,
    now: string)

  datatype Outcome =
    | MissingApiKey
    | SearchFailed
    | NoItems(subject: string, body: string)
    | Draft(subject: string, request: WriterRequest, post: string, sourceLines: seq<string>, body: string)

  function NoItemsSubject(slot: string): string {
    "Stablecoin Agent \U{2014} " + slot + ": no items"
  }

  function NoItemsBody(slot: string, m: NewsMode): string {
    "[" + slot + "] No stablecoin-related items found for mode=" + ModeName(m) + "."
  }

  function DraftSubject(slot: string, m: NewsMode): string {
    "Stablecoin Agent \U{2014} " + slot + " X draft (" + ModeName(m) + ")"
  }

  /** The lines of the email body ahead of the post. */
  function EmailPreamble(slot: string, mode: NewsMode, now: string): string {
    "RUN_SLOT: " + slot + "\n" + "NEWS_MODE: " + ModeName(mode) + "\n" + "TIME (UTC): " + now + "\n\n"
    + "X DRAFT (copy/paste):\n\n"
  }

  /** The source list as the email shows it. */
  function SourcesText(lines: seq<string>): string {
    if |lines| > 0 then Join(lines, "\n") else "No sources listed."
  }

  /** What follows the post in the email: a rule, the source list and a
      final newline. */
  function EmailTail(lines: seq<string>): string {
    "\n\n" + "----\n" + SourcesText(lines) + "\n"
  }

  /** The email of a draft: the run's settings and time, the post, then the
      tail. */
  function EmailBody(slot: string, mode: NewsMode, now: string, post: string, lines: seq<string>): string {
    EmailPreamble(slot, mode, now) + post + EmailTail(lines)
  }

  /** The post can be read back from the body: it sits right after the
      preamble, and only the tail follows it. */
  lemma EmailBodyHoldsPost(slot: string, mode: NewsMode, now: string, post: string, lines: seq<string>)
    ensures var b := EmailBody(slot, mode, now, post, lines);
      var k := |EmailPreamble(slot, mode, now)|;
      && k + |post| <= |b|
      && b[k..k + |post|] == post
      && b[k + |post|..] == EmailTail(lines)
  {
    Between(EmailPreamble(slot, mode, now), post, EmailTail(lines));
  }

  lemma Between(pre: string, mid: string, tail: string)
    ensures (pre + mid + tail)[|pre|..|pre| + |mid|] == mid
    ensures (pre + mid + tail)[|pre| + |mid|..] == tail
  {
  }

  /** The email says "No sources listed." exactly when neither part has a
      source. */
  lemma NoSourcesListed(regular: seq<Source>, launch: seq<Source>)
    ensures SourcesText(SourceLines(regular, launch)) == "No sources listed." <==>
      |regular| == 0 && |launch| == 0
  {
    var lines := SourceLines(regular, launch);
    if |lines| > 0 {
      var t := Join(lines, "\n");
      assert StartsWith(t, lines[0]);
      if |regular| > 0 {
        assert lines[0] == "Regular sources:";
        assert t[0] == 'R';
      } else {
        assert lines[0] == "Launch/announcement sources:";
        assert t[0] == 'L';
      }
    }
  }

  /** The part of a run after the search: the notice or the draft. */
  function Finish(slot: string, mode: NewsMode, languageMode: string, regular: Section, launch: Section,
                  w: World): Outcome
  {
    if IsNoItems(mode, regular.brief, launch.brief) then
      NoItems(NoItemsSubject(slot), NoItemsBody(slot, mode))
    else
      var request := WriterRequest(CombineBriefs(SlotTopicHint(slot), regular.brief, launch.brief),
                                   languageMode, slot, SlotStyle(slot));
      var post := w.write(request);
      var lines := SourceLines(regular.sources, launch.sources);
      Draft(DraftSubject(slot, mode), request, post, lines, EmailBody(slot, mode, w.now, post, lines))
  }

  /** The regular part of a run: built only when the mode asks for it. */
  function RegularPart(s: Settings, w: World): Section {
    if WantsRegular(NormaliseMode(s.newsMode)) then RegularSection(w.feeds, w.parse, w.page, s.caps)
    else NoSection
  }

  /** The launch part of a run: searched and built only when the mode asks
      for it; `None` when a search feed raised. */
  function LaunchPart(s: Settings, w: World): Option<Section> {
    if WantsLaunches(NormaliseMode(s.newsMode)) then
      match SearchAll(w.queries, s.caps.perQueryItems, w.parse)
      case None => None
      case Some(hits) => Some(LaunchSection(hits, s.caps))
    else Some(NoSection)
  }

  /** The articles a run chooses for its regular part. */
  function ChosenArticles(s: Settings, w: World): seq<Article> {
    Prefix(Fetch(w.feeds, w.parse, s.caps.limitPerFeed), s.caps.maxArticles)
  }

  /** `main()`: stops when the API key is unset or empty; otherwise builds
      the parts the mode asks for and sends the notice or the draft. */
  function Run(s: Settings, w: World): Outcome {
    if s.apiKey.GetOr("") == "" then MissingApiKey
    else
      match LaunchPart(s, w)
      case None => SearchFailed
      case Some(launch) =>
        Finish(NormaliseSlot(s.runSlot), NormaliseMode(s.newsMode), Setting(s.languageMode, "auto"),
               RegularPart(s, w), launch, w)
  }

  /** The regular part's brief is empty exactly when the mode skips it or no
      article is chosen; the launch part's brief is empty exactly when the
      mode skips it or no kept search item has a stripped title and link. */
  lemma PartsEmpty(s: Settings, w: World)
    ensures RegularPart(s, w).brief == "" <==>
      !WantsRegular(NormaliseMode(s.newsMode)) || |ChosenArticles(s, w)| == 0
    ensures LaunchPart(s, w).None? <==>
      WantsLaunches(NormaliseMode(s.newsMode)) && SearchAll(w.queries, s.caps.perQueryItems, w.parse).None?
    ensures LaunchPart(s, w).Some? ==>
      (LaunchPart(s, w).value.brief == "" <==>
        || !WantsLaunches(NormaliseMode(s.newsMode))
        || var top := LaunchTop(SearchAll(w.queries, s.caps.perQueryItems, w.parse).value, s.caps);
           forall j :: 0 <= j < |top| ==> !Kept(top[j]))
  {
    RegularSectionSpec(w.feeds, w.parse, w.page, s.caps);
    match SearchAll(w.queries, s.caps.perQueryItems, w.parse)
    case None =>
    case Some(hits) => LaunchSectionSpec(hits, s.caps);
  }

  /** A run stops before any email exactly when the API key is unset or
      empty, or when the mode asks for launches and a search feed raised. */
  lemma RunStops(s: Settings, w: World)
    ensures Run(s, w).MissingApiKey? <==> s.apiKey.GetOr("") == ""
    ensures Run(s, w).SearchFailed? <==>
      && s.apiKey.GetOr("") != ""
      && WantsLaunches(NormaliseMode(s.newsMode))
      && SearchAll(w.queries, s.caps.perQueryItems, w.parse).None?
  {
    PartsEmpty(s, w);
  }

  /** The notice is sent exactly when the key is set, the mode is `both`,
      the search did not fail, no regular article was chosen and no kept
      search item has a stripped title and link. A `regular` or `launches`
      run never sends it. */
  lemma RunNoItems(s: Settings, w: World)
    ensures Run(s, w).NoItems? <==>
      && s.apiKey.GetOr("") != ""
      && NormaliseMode(s.newsMode) == Both
      && SearchAll(w.queries, s.caps.perQueryItems, w.parse).Some?
      && |ChosenArticles(s, w)| == 0
      && var top := LaunchTop(SearchAll(w.queries, s.caps.perQueryItems, w.parse).value, s.caps);
         forall j :: 0 <= j < |top| ==> !Kept(top[j])
  {
    PartsEmpty(s, w);
  }

  /** A `regular` or `launches` run with the key set always asks the writer
      for a draft (unless the search feed raised), in the style of its
      slot. */
  lemma SingleModeDrafts(s: Settings, w: World)
    requires s.apiKey.GetOr("") != ""
    requires NormaliseMode(s.newsMode) != Both
    requires LaunchPart(s, w).Some?
    ensures Run(s, w).Draft?
    ensures var slot := NormaliseSlot(s.runSlot);
      var r := Run(s, w);
      r.request.slotStyle == SlotStyle(slot) && r.request.runSlot == slot
  {
  }

  /** A `regular` run that chose no article hands the writer just the slot
      hint and lists no sources. */
  lemma EmptyRegularRun(s: Settings, w: World)
    requires s.apiKey.GetOr("") != ""
    requires NormaliseMode(s.newsMode) == Regular && |ChosenArticles(s, w)| == 0
    ensures Run(s, w).Draft?
    ensures Run(s, w).request.brief == SlotTopicHint(NormaliseSlot(s.runSlot))
    ensures Run(s, w).sourceLines == []
  {
    var regular := RegularPart(s, w);
    NothingChosen(s, w);
    assert LaunchPart(s, w) == Some(NoSection);
    assert Run(s, w) == Finish(NormaliseSlot(s.runSlot), Regular, Setting(s.languageMode, "auto"), regular, NoSection, w);
    FinishEmptyRegular(NormaliseSlot(s.runSlot), Setting(s.languageMode, "auto"), regular, w);
  }

  /** A regular part with no chosen article has no brief and no sources. */
  lemma NothingChosen(s: Settings, w: World)
    requires |ChosenArticles(s, w)| == 0
    ensures RegularPart(s, w).brief == "" && RegularPart(s, w).sources == []
  {
    if WantsRegular(NormaliseMode(s.newsMode)) && |Fetch(w.feeds, w.parse, s.caps.limitPerFeed)| > 0 {
      assert |WithContent(ChosenArticles(s, w), w.page)| == 0;
    }
  }

  /** The draft of a `regular` run whose part is empty. */
  lemma FinishEmptyRegular(slot: string, languageMode: string, regular: Section, w: World)
    requires regular.brief == "" && regular.sources == []
    ensures var r := Finish(slot, Regular, languageMode, regular, NoSection, w);
      r.Draft? && r.request.brief == SlotTopicHint(slot) && r.sourceLines == []
  {
    assert !IsNoItems(Regular, regular.brief, "");
    assert SourceLines([], []) == [];
    HintsClean(slot);
    CombineHintOnly(SlotTopicHint(slot));
  }

  /** With both parts empty, the writer gets the hint alone. */
  lemma CombineHintOnly(hint: string)
    requires NoEdgeSpace(hint)
    ensures CombineBriefs(hint, "", "") == hint
  {
    assert Sections("", "") == [];
    HintThenBody(hint, "");
  }

  /** In a draft, every chosen regular article is listed under "Regular
      sources:" with its title and URL, in fetch order, ahead of the launch
      sources. */
  lemma DraftListsRegularSources(s: Settings, w: World)
    requires Run(s, w).Draft? && WantsRegular(NormaliseMode(s.newsMode))
    ensures var top := ChosenArticles(s, w);
      var lines := Run(s, w).sourceLines;
      |top| > 0 ==>
        && |lines| > |top|
        && lines[0] == "Regular sources:"
        && forall j :: 0 <= j < |top| ==> lines[1 + j] == SourceLine(Source(top[j].title, top[j].url))
  {
    RunSourceLines(s, w);
    var top := ChosenArticles(s, w);
    if |top| > 0 {
      var sources := RegularPart(s, w).sources;
      assert sources == ArticleSources(top);
      ChosenUrlsNonEmpty(s, w, sources);
      RegularSourcesFirst(sources, LaunchPart(s, w).value.sources);
    }
  }

  lemma ChosenUrlsNonEmpty(s: Settings, w: World, sources: seq<Source>)
    requires sources == ArticleSources(ChosenArticles(s, w))
    ensures forall j :: 0 <= j < |sources| ==> sources[j].url != ""
  {
    var items := Fetch(w.feeds, w.parse, s.caps.limitPerFeed);
    FetchUrlsNonEmpty(w.feeds, w.parse, s.caps.limitPerFeed);
    assert forall j :: 0 <= j < |sources| ==> sources[j].url == items[j].url;
  }

  /** A draft lists the sources of the two parts. */
  lemma RunSourceLines(s: Settings, w: World)
    requires Run(s, w).Draft?
    ensures LaunchPart(s, w).Some?
    ensures Run(s, w).sourceLines == SourceLines(RegularPart(s, w).sources, LaunchPart(s, w).value.sources)
  {
  }

  /** When every regular source has a URL, the source list opens with the
      regular heading followed by one line per regular source, in order. */
  lemma RegularSourcesFirst(regular: seq<Source>, launch: seq<Source>)
    requires |regular| > 0
    requires forall j :: 0 <= j < |regular| ==> regular[j].url != ""
    ensures var lines := SourceLines(regular, launch);
      && |lines| > |regular|
      && lines[0] == "Regular sources:"
      && forall j :: 0 <= j < |regular| ==> lines[1 + j] == SourceLine(regular[j])
  {
    ListedAll(regular);
  }
}
