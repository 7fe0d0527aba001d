/** run_daily.py: the plain-text briefs handed to the writer, one for the
    regular RSS articles (`build_regular_news_brief`) and one for the Google
    News search items (`build_launch_news_brief`). Each is a list of numbered
    blocks of lines, joined with newlines and stripped. */
module Briefs {
  import opened Options
  import opened Seqs
  import opened Text
  import opened NewsFetch
  import opened GoogleNews

  /** At most this much of an article's extracted text goes in the brief. */
  const KeyTextCap: nat := 600

  /** At most this much of a search item's summary goes in the brief. */
  const SnippetCap: nat := 280

  /** `f"{n}) {title}"`. */
  function Heading(n: nat, title: string): string {
    NatToString(n) + ") " + title
  }

  /** The number of decimal digits `s` starts with. */
  function LeadDigits(s: string): (k: nat)
    ensures k <= |s|
    ensures forall i :: 0 <= i < k ==> IsDigit(s[i])
    ensures k < |s| ==> !IsDigit(s[k])
    decreases |s|
  {
    if |s| > 0 && IsDigit(s[0]) then 1 + LeadDigits(s[1..]) else 0
  }

  lemma {:induction false} LeadDigitsBeforeParen(a: string, x: string)
    requires AllDigits(a)
    ensures LeadDigits(a + [')'] + x) == |a|
    decreases |a|
  {
    if |a| > 0 {
      assert (a + [')'] + x)[1..] == a[1..] + [')'] + x;
      LeadDigitsBeforeParen(a[1..], x);
    }
  }

  lemma StartsWithFirst(s: string, p: string)
    requires StartsWith(s, p) && |p| > 0
    ensures |s| > 0 && s[0] == p[0]
  {
    assert s[0] == s[..|p|][0];
  }

  lemma HeadingStartsWithDigit(n: nat, title: string)
    ensures |Heading(n, title)| > 0 && IsDigit(Heading(n, title)[0])
  {
    assert Heading(n, title)[0] == NatToString(n)[0];
  }

  /** A heading gives back its number and its title: different items are
      never written under the same heading. */
  lemma HeadingInjective(m: nat, t: string, n: nat, u: string)
    requires Heading(m, t) == Heading(n, u)
    ensures m == n && t == u
  {
    var a, b := NatToString(m), NatToString(n);
    var h := Heading(m, t);
    assert h == a + [')'] + (" " + t);
    assert Heading(n, u) == b + [')'] + (" " + u);
    LeadDigitsBeforeParen(a, " " + t);
    LeadDigitsBeforeParen(b, " " + u);
    assert a == h[..|a|] == b;
    NatToStringInjective(m, n);
    assert t == h[|a| + 2..] == u;
  }

  /** The blocks of a list numbered from `start`, in order. */
  function Numbered<T>(xs: seq<T>, start: nat, block: (nat, T) -> seq<string>): seq<string>
    decreases |xs|
  {
    if |xs| == 0 then [] else block(start, xs[0]) + Numbered(xs[1..], start + 1, block)
  }

  /** A line is in the numbered blocks exactly when it is in the block of
      some item under that item's number. */
  lemma {:induction false} NumberedMembers<T>(xs: seq<T>, start: nat, block: (nat, T) -> seq<string>,
                                              line: string)
    ensures line in Numbered(xs, start, block) <==>
      exists j :: 0 <= j < |xs| && line in block(start + j, xs[j])
  {
    if line in Numbered(xs, start, block) {
      var j := NumberedIndex(xs, start, block, line);
    }
    if exists j :: 0 <= j < |xs| && line in block(start + j, xs[j]) {
      var j :| 0 <= j < |xs| && line in block(start + j, xs[j]);
      NumberedHas(xs, start, block, j, line);
    }
  }

  /** Every line of an item's block is a line of the numbered blocks. */
  lemma {:induction false} NumberedHas<T>(xs: seq<T>, start: nat, block: (nat, T) -> seq<string>,
                                          j: nat, line: string)
    requires j < |xs| && line in block(start + j, xs[j])
    ensures line in Numbered(xs, start, block)
    decreases |xs|
  {
    if j > 0 {
      assert xs[1..][j - 1] == xs[j];
      NumberedHas(xs[1..], start + 1, block, j - 1, line);
    }
  }

  /** The index of an item whose block holds a given line of the numbered
      blocks. */
  lemma {:induction false} NumberedIndex<T>(xs: seq<T>, start: nat, block: (nat, T) -> seq<string>,
                                            line: string) returns (j: nat)
    requires line in Numbered(xs, start, block)
    ensures j < |xs| && line in block(start + j, xs[j])
    decreases |xs|
  {
    if line in block(start, xs[0]) {
      j := 0;
    } else {
      var k := NumberedIndex(xs[1..], start + 1, block, line);
      j := k + 1;
      assert xs[1..][k] == xs[j];
    }
  }

  /** Every item with an empty block contributes no line. */
  lemma {:induction false} NumberedEmpty<T>(xs: seq<T>, start: nat, block: (nat, T) -> seq<string>)
    requires forall j :: 0 <= j < |xs| ==> block(start + j, xs[j]) == []
    ensures Numbered(xs, start, block) == []
    decreases |xs|
  {
    if |xs| > 0 {
      assert block(start + 0, xs[0]) == [];
      forall j | 0 <= j < |xs| - 1
        ensures block(start + 1 + j, xs[1..][j]) == []
      {
        assert block(start + (j + 1), xs[j + 1]) == [];
      }
      NumberedEmpty(xs[1..], start + 1, block);
    }
  }

  /** The numbered lines joined with newlines and stripped are empty
      exactly when every line is whitespace. */
  lemma BriefEmpty(lines: seq<string>)
    ensures Strip(Join(lines, "\n")) == "" <==>
      forall k :: 0 <= k < |lines| ==> AllSpace(lines[k])
  {
    assert AllSpace("\n") by { assert IsSpace('\n'); }
  }

  lemma HeadingInLines(lines: seq<string>, n: nat, title: string)
    requires Heading(n, title) in lines
    ensures !forall k :: 0 <= k < |lines| ==> AllSpace(lines[k])
  {
    HeadingStartsWithDigit(n, title);
    var k :| 0 <= k < |lines| && lines[k] == Heading(n, title);
    assert !IsSpace(lines[k][0]);
  }

  // ----- One block -----

  /** The date line, present only for a non-empty date. */
  function DateLines(published: string): seq<string> {
    if published != "" then ["Published: " + published] else []
  }

  /** The lines after a block's `URL:` line each start with a capital
      other than `U` and `P`. */
  predicate Labelled(extras: seq<string>) {
    forall k :: 0 <= k < |extras| ==>
      |extras[k]| > 0 && 'A' <= extras[k][0] <= 'Z' && extras[k][0] != 'U' && extras[k][0] != 'P'
  }

  /** The shape both briefs share: the numbered heading, the date when
      there is one, the URL, the kind-specific lines, and a blank line. */
  function Block(i: nat, title: string, published: string, url: string, extras: seq<string>)
    : seq<string>
  {
    [Heading(i, title)] + DateLines(published) + ["URL: " + url] + extras + [""]
  }

  lemma BlockMembers(i: nat, title: string, published: string, url: string, extras: seq<string>,
                     line: string)
    ensures line in Block(i, title, published, url, extras) <==>
      || line == Heading(i, title)
      || (published != "" && line == "Published: " + published)
      || line == "URL: " + url
      || line in extras
      || line == ""
  {
  }

  lemma BlockHeading(i: nat, title: string, published: string, url: string, extras: seq<string>,
                     m: nat, t: string)
    requires Labelled(extras)
    ensures Heading(m, t) in Block(i, title, published, url, extras) <==> m == i && t == title
  {
    var h := Heading(m, t);
    BlockMembers(i, title, published, url, extras, h);
    HeadingStartsWithDigit(m, t);
    if h == Heading(i, title) {
      HeadingInjective(m, t, i, title);
    }
    assert h !in extras by {
      forall k | 0 <= k < |extras| ensures extras[k] != h {
        assert IsDigit(h[0]);
      }
    }
  }

  lemma BlockUrl(i: nat, title: string, published: string, url: string, extras: seq<string>,
                 u: string)
    requires Labelled(extras)
    ensures ("URL: " + u) in Block(i, title, published, url, extras) <==> u == url
  {
    var line := "URL: " + u;
    BlockMembers(i, title, published, url, extras, line);
    HeadingStartsWithDigit(i, title);
    assert line[0] == 'U';
    if line == "URL: " + url {
      assert u == line[5..] == url;
    }
    assert line !in extras by {
      forall k | 0 <= k < |extras| ensures extras[k] != line {
        assert extras[k][0] != 'U';
      }
    }
  }

  lemma BlockDate(i: nat, title: string, published: string, url: string, extras: seq<string>,
                  p: string)
    requires Labelled(extras)
    ensures ("Published: " + p) in Block(i, title, published, url, extras) <==> p == published != ""
  {
    var line := "Published: " + p;
    BlockMembers(i, title, published, url, extras, line);
    HeadingStartsWithDigit(i, title);
    assert line[0] == 'P';
    if line == "Published: " + published {
      assert p == line[11..] == published;
    }
    assert line !in extras by {
      forall k | 0 <= k < |extras| ensures extras[k] != line {
        assert extras[k][0] != 'P';
      }
    }
  }

  /** A line starting with a capital other than `U` and `P` is in a block
      exactly when it is one of the block's kind-specific lines. */
  lemma BlockExtra(i: nat, title: string, published: string, url: string, extras: seq<string>,
                   line: string)
    requires |line| > 0 && 'A' <= line[0] <= 'Z' && line[0] != 'U' && line[0] != 'P'
    ensures line in Block(i, title, published, url, extras) <==> line in extras
  {
    BlockMembers(i, title, published, url, extras, line);
    HeadingStartsWithDigit(i, title);
    assert line != Heading(i, title) by { assert !IsDigit(line[0]); }
    assert line != "Published: " + published by { assert ("Published: " + published)[0] == 'P'; }
    assert line != "URL: " + url by { assert ("URL: " + url)[0] == 'U'; }
  }

  // ----- Regular RSS articles -----

  /** The summary line, present only for a non-empty summary. */
  function SummaryLines(summary: string): seq<string> {
    if summary != "" then ["Summary: " + summary] else []
  }

  /** The start of the extracted text, present only when there is some. */
  function KeyTextLines(content: Option<string>): seq<string> {
    if content.Some? && content.value != "" then ["Key text: " + Prefix(content.value, KeyTextCap)]
    else []
  }

  function RegularExtras(a: Article): (r: seq<string>)
    ensures Labelled(r)
  {
    var r := SummaryLines(a.summary) + KeyTextLines(a.content);
    assert forall k :: 0 <= k < |r| ==> r[k][0] == 'S' || r[k][0] == 'K';
    r
  }

  /** The lines `build_regular_news_brief` writes for the article numbered
      `i`: the heading, the date when there is one, the URL, the summary
      when non-empty, the first 600 characters of the extracted text when
      there is some, and a blank line. */
  function RegularBlock(i: nat, a: Article): seq<string> {
    Block(i, a.title, a.published, a.url, RegularExtras(a))
  }

  function RegularLines(articles: seq<Article>): seq<string> {
    Numbered(articles, 1, RegularBlock)
  }

  /** `build_regular_news_brief(articles)`: empty exactly when there are no
      articles, and never starting or ending in whitespace. */
  function BuildRegularNewsBrief(articles: seq<Article>): (r: string)
    ensures r == "" <==> |articles| == 0
    ensures NoEdgeSpace(r)
  {
    RegularBriefEmpty(articles);
    Strip(Join(RegularLines(articles), "\n"))
  }

  lemma RegularBriefEmpty(articles: seq<Article>)
    ensures Strip(Join(RegularLines(articles), "\n")) == "" <==> |articles| == 0
  {
    BriefEmpty(RegularLines(articles));
    if |articles| > 0 {
      RegularHeadings(articles, 1, articles[0].title);
      HeadingInLines(RegularLines(articles), 1, articles[0].title);
    }
  }

  /** The brief has the heading numbered `n` with title `t` exactly when
      the `n`-th article (counting from 1) has title `t`. */
  lemma RegularHeadings(articles: seq<Article>, n: nat, t: string)
    ensures Heading(n, t) in RegularLines(articles) <==>
      1 <= n <= |articles| && t == articles[n - 1].title
  {
    if Heading(n, t) in RegularLines(articles) {
      RegularHeadingFound(articles, n, t);
    }
    if 1 <= n <= |articles| && t == articles[n - 1].title {
      RegularHeadingPresent(articles, n - 1);
    }
  }

  lemma RegularHeadingFound(articles: seq<Article>, n: nat, t: string)
    requires Heading(n, t) in RegularLines(articles)
    ensures 1 <= n <= |articles| && t == articles[n - 1].title
  {
    NumberedMembers(articles, 1, RegularBlock, Heading(n, t));
    var j :| 0 <= j < |articles| && Heading(n, t) in RegularBlock(1 + j, articles[j]);
    RegularBlockHeading(1 + j, articles[j], n, t);
  }

  lemma RegularHeadingPresent(articles: seq<Article>, j: nat)
    requires j < |articles|
    ensures Heading(j + 1, articles[j].title) in RegularLines(articles)
  {
    var h := Heading(1 + j, articles[j].title);
    RegularBlockHeading(1 + j, articles[j], 1 + j, articles[j].title);
    NumberedMembers(articles, 1, RegularBlock, h);
  }

  lemma RegularBlockHeading(i: nat, a: Article, n: nat, t: string)
    ensures Heading(n, t) in RegularBlock(i, a) <==> n == i && t == a.title
  {
    BlockHeading(i, a.title, a.published, a.url, RegularExtras(a), n, t);
  }

  /** A `URL:` line is in the brief exactly when some article has that
      URL. */
  lemma RegularUrls(articles: seq<Article>, u: string)
    ensures ("URL: " + u) in RegularLines(articles) <==>
      exists j :: 0 <= j < |articles| && articles[j].url == u
  {
    NumberedMembers(articles, 1, RegularBlock, "URL: " + u);
    RegularBlocksUrl(articles, u);
  }

  lemma RegularBlocksUrl(articles: seq<Article>, u: string)
    ensures forall j :: 0 <= j < |articles| ==>
      (("URL: " + u) in RegularBlock(1 + j, articles[j]) <==> articles[j].url == u)
  {
    forall j | 0 <= j < |articles|
      ensures ("URL: " + u) in RegularBlock(1 + j, articles[j]) <==> articles[j].url == u
    {
      RegularBlockUrl(1 + j, articles[j], u);
    }
  }

  lemma RegularBlockUrl(i: nat, a: Article, u: string)
    ensures ("URL: " + u) in RegularBlock(i, a) <==> a.url == u
  {
    BlockUrl(i, a.title, a.published, a.url, RegularExtras(a), u);
  }

  /** A `Published:` line is in the brief exactly when some article has
      that non-empty date. */
  lemma RegularDates(articles: seq<Article>, p: string)
    ensures ("Published: " + p) in RegularLines(articles) <==>
      exists j :: 0 <= j < |articles| && articles[j].published == p != ""
  {
    NumberedMembers(articles, 1, RegularBlock, "Published: " + p);
    RegularBlocksDate(articles, p);
  }

  lemma RegularBlocksDate(articles: seq<Article>, p: string)
    ensures forall j :: 0 <= j < |articles| ==>
      (("Published: " + p) in RegularBlock(1 + j, articles[j]) <==> articles[j].published == p != "")
  {
    forall j | 0 <= j < |articles|
      ensures ("Published: " + p) in RegularBlock(1 + j, articles[j]) <==> articles[j].published == p != ""
    {
      RegularBlockDate(1 + j, articles[j], p);
    }
  }

  lemma RegularBlockDate(i: nat, a: Article, p: string)
    ensures ("Published: " + p) in RegularBlock(i, a) <==> a.published == p != ""
  {
    BlockDate(i, a.title, a.published, a.url, RegularExtras(a), p);
  }

  /** A `Summary:` line is in the brief exactly when some article has that
      non-empty summary. */
  lemma RegularSummaries(articles: seq<Article>, s: string)
    ensures ("Summary: " + s) in RegularLines(articles) <==>
      exists j :: 0 <= j < |articles| && articles[j].summary == s != ""
  {
    NumberedMembers(articles, 1, RegularBlock, "Summary: " + s);
    RegularBlocksSummary(articles, s);
  }

  lemma RegularBlocksSummary(articles: seq<Article>, s: string)
    ensures forall j :: 0 <= j < |articles| ==>
      (("Summary: " + s) in RegularBlock(1 + j, articles[j]) <==> articles[j].summary == s != "")
  {
    forall j | 0 <= j < |articles|
      ensures ("Summary: " + s) in RegularBlock(1 + j, articles[j]) <==> articles[j].summary == s != ""
    {
      RegularBlockSummary(1 + j, articles[j], s);
    }
  }

  lemma RegularBlockSummary(i: nat, a: Article, s: string)
    ensures ("Summary: " + s) in RegularBlock(i, a) <==> a.summary == s != ""
  {
    var line := "Summary: " + s;
    BlockExtra(i, a.title, a.published, a.url, RegularExtras(a), line);
    assert line !in KeyTextLines(a.content);
    if line in SummaryLines(a.summary) {
      assert s == line[9..] == a.summary;
    }
  }

  /** Every `Key text:` line of the brief is the start, at most 600
      characters, of some article's extracted text. */
  lemma RegularKeyTextCap(articles: seq<Article>, line: string)
    requires line in RegularLines(articles) && StartsWith(line, "Key text: ")
    ensures exists j :: 0 <= j < |articles| && articles[j].content.Some? &&
                        articles[j].content.value != "" &&
                        line == "Key text: " + Prefix(articles[j].content.value, KeyTextCap)
    ensures |line| <= 10 + KeyTextCap
  {
    StartsWithFirst(line, "Key text: ");
    NumberedMembers(articles, 1, RegularBlock, line);
    var j :| 0 <= j < |articles| && line in RegularBlock(1 + j, articles[j]);
    KeyTextInBlock(1 + j, articles[j], line);
  }

  lemma KeyTextInBlock(i: nat, a: Article, line: string)
    requires line in RegularBlock(i, a) && |line| > 0 && line[0] == 'K'
    ensures a.content.Some? && a.content.value != ""
    ensures line == "Key text: " + Prefix(a.content.value, KeyTextCap)
  {
    BlockExtra(i, a.title, a.published, a.url, RegularExtras(a), line);
    assert line in SummaryLines(a.summary) + KeyTextLines(a.content);
    assert line !in SummaryLines(a.summary);
  }

  /** Every article with extracted text has its `Key text:` line. */
  lemma RegularKeyTextPresent(articles: seq<Article>, j: int)
    requires 0 <= j < |articles| && articles[j].content.Some? && articles[j].content.value != ""
    ensures ("Key text: " + Prefix(articles[j].content.value, KeyTextCap)) in RegularLines(articles)
  {
    var a := articles[j];
    var line := "Key text: " + Prefix(a.content.value, KeyTextCap);
    assert line in RegularExtras(a);
    BlockExtra(1 + j, a.title, a.published, a.url, RegularExtras(a), line);
    NumberedMembers(articles, 1, RegularBlock, line);
  }

  // ----- Google News search items -----

  /** An item's four fields as `build_launch_news_brief` reads them:
      stripped of surrounding whitespace. */
  datatype StrippedItem = StrippedItem(title: string, link: string, published: string, summary: string)

  function StripItem(n: SearchItem): StrippedItem {
    StrippedItem(Strip(n.title), Strip(n.link), Strip(n.published), Strip(n.summary))
  }

  function StripAll(items: seq<SearchItem>): (r: seq<StrippedItem>)
    ensures |r| == |items|
    ensures forall j :: 0 <= j < |items| ==> r[j] == StripItem(items[j])
  {
    seq(|items|, j requires 0 <= j < |items| => StripItem(items[j]))
  }

  predicate HasBlock(f: StrippedItem) {
    f.title != "" && f.link != ""
  }

  /** `build_launch_news_brief` writes a block for an item only when its
      stripped title and link are both non-empty. */
  predicate Kept(n: SearchItem) {
    HasBlock(StripItem(n))
  }

  /** The snippet line: the first 280 characters of a non-empty summary. */
  function SnippetLines(summary: string): (r: seq<string>)
    ensures Labelled(r)
  {
    if summary != "" then ["Snippet: " + Prefix(summary, SnippetCap)] else []
  }

  /** The lines for the item numbered `i` (its position, so skipped items
      leave gaps in the numbering): the stripped heading, date and link, the
      first 280 characters of the stripped summary when there is one, and
      a blank line; nothing for an item that is not kept. */
  function LaunchBlock(i: nat, f: StrippedItem): seq<string> {
    if HasBlock(f) then Block(i, f.title, f.published, f.link, SnippetLines(f.summary))
    else []
  }

  function LaunchLines(items: seq<SearchItem>): seq<string> {
    Numbered(StripAll(items), 1, LaunchBlock)
  }

  /** `build_launch_news_brief(items)`: empty exactly when no item is kept,
      and never starting or ending in whitespace. */
  function BuildLaunchNewsBrief(items: seq<SearchItem>): (r: string)
    ensures r == "" <==> forall j :: 0 <= j < |items| ==> !Kept(items[j])
    ensures NoEdgeSpace(r)
  {
    LaunchBriefEmpty(items);
    Strip(Join(LaunchLines(items), "\n"))
  }

  lemma LaunchBriefEmpty(items: seq<SearchItem>)
    ensures Strip(Join(LaunchLines(items), "\n")) == "" <==>
      forall j :: 0 <= j < |items| ==> !Kept(items[j])
  {
    var fs := StripAll(items);
    StrippedBriefEmpty(fs);
    assert forall j :: 0 <= j < |items| ==> (Kept(items[j]) <==> HasBlock(fs[j]));
  }

  lemma StrippedBriefEmpty(fs: seq<StrippedItem>)
    ensures Strip(Join(Numbered(fs, 1, LaunchBlock), "\n")) == "" <==>
      forall j :: 0 <= j < |fs| ==> !HasBlock(fs[j])
  {
    var lines := Numbered(fs, 1, LaunchBlock);
    BriefEmpty(lines);
    if j :| 0 <= j < |fs| && HasBlock(fs[j]) {
      StrippedHeadings(fs, j + 1, fs[j].title);
      HeadingInLines(lines, j + 1, fs[j].title);
    } else {
      NumberedEmpty(fs, 1, LaunchBlock);
    }
  }

  lemma StrippedHeadings(fs: seq<StrippedItem>, m: nat, t: string)
    ensures Heading(m, t) in Numbered(fs, 1, LaunchBlock) <==>
      1 <= m <= |fs| && HasBlock(fs[m - 1]) && t == fs[m - 1].title
  {
    NumberedMembers(fs, 1, LaunchBlock, Heading(m, t));
    if Heading(m, t) in Numbered(fs, 1, LaunchBlock) {
      var j :| 0 <= j < |fs| && Heading(m, t) in LaunchBlock(1 + j, fs[j]);
      LaunchBlockHeading(1 + j, fs[j], m, t);
    }
    if 1 <= m <= |fs| && HasBlock(fs[m - 1]) && t == fs[m - 1].title {
      LaunchBlockHeading(1 + (m - 1), fs[m - 1], m, t);
    }
  }

  lemma LaunchBlockHeading(i: nat, f: StrippedItem, m: nat, t: string)
    ensures Heading(m, t) in LaunchBlock(i, f) <==> HasBlock(f) && m == i && t == f.title
  {
    if HasBlock(f) {
      BlockHeading(i, f.title, f.published, f.link, SnippetLines(f.summary), m, t);
    }
  }

  lemma LaunchBlockUrl(i: nat, f: StrippedItem, u: string)
    ensures ("URL: " + u) in LaunchBlock(i, f) <==> HasBlock(f) && f.link == u
  {
    if HasBlock(f) {
      BlockUrl(i, f.title, f.published, f.link, SnippetLines(f.summary), u);
    }
  }

  /** The brief has the heading numbered `m` with title `t` exactly when
      the `m`-th item (counting from 1) is kept and its stripped title is
      `t`: an item's number is its position, skipped items included. */
  lemma LaunchHeadings(items: seq<SearchItem>, m: nat, t: string)
    ensures Heading(m, t) in LaunchLines(items) <==>
      1 <= m <= |items| && Kept(items[m - 1]) && t == Strip(items[m - 1].title)
  {
    StrippedHeadings(StripAll(items), m, t);
  }

  lemma StrippedUrls(fs: seq<StrippedItem>, u: string)
    ensures ("URL: " + u) in Numbered(fs, 1, LaunchBlock) <==>
      exists j :: 0 <= j < |fs| && HasBlock(fs[j]) && fs[j].link == u
  {
    NumberedMembers(fs, 1, LaunchBlock, "URL: " + u);
    LaunchBlocksUrl(fs, u);
  }

  lemma LaunchBlocksUrl(fs: seq<StrippedItem>, u: string)
    ensures forall j :: 0 <= j < |fs| ==>
      (("URL: " + u) in LaunchBlock(1 + j, fs[j]) <==> HasBlock(fs[j]) && fs[j].link == u)
  {
    forall j | 0 <= j < |fs|
      ensures ("URL: " + u) in LaunchBlock(1 + j, fs[j]) <==> HasBlock(fs[j]) && fs[j].link == u
    {
      LaunchBlockUrl(1 + j, fs[j], u);
    }
  }

  /** A `URL:` line is in the brief exactly when some kept item has that
      stripped link. */
  lemma LaunchUrls(items: seq<SearchItem>, u: string)
    ensures ("URL: " + u) in LaunchLines(items) <==>
      exists j :: 0 <= j < |items| && Kept(items[j]) && Strip(items[j].link) == u
  {
    var fs := StripAll(items);
    StrippedUrls(fs, u);
    if ("URL: " + u) in LaunchLines(items) {
      var j :| 0 <= j < |fs| && HasBlock(fs[j]) && fs[j].link == u;
      assert Kept(items[j]) && Strip(items[j].link) == u;
    }
    if j :| 0 <= j < |items| && Kept(items[j]) && Strip(items[j].link) == u {
      assert HasBlock(fs[j]) && fs[j].link == u;
    }
  }

  lemma LaunchBlockDate(i: nat, f: StrippedItem, p: string)
    ensures ("Published: " + p) in LaunchBlock(i, f) <==> HasBlock(f) && f.published == p != ""
  {
    if HasBlock(f) {
      BlockDate(i, f.title, f.published, f.link, SnippetLines(f.summary), p);
    }
  }

  lemma LaunchBlocksDate(fs: seq<StrippedItem>, p: string)
    ensures forall j :: 0 <= j < |fs| ==>
      (("Published: " + p) in LaunchBlock(1 + j, fs[j]) <==> HasBlock(fs[j]) && fs[j].published == p != "")
  {
    forall j | 0 <= j < |fs|
      ensures ("Published: " + p) in LaunchBlock(1 + j, fs[j]) <==> HasBlock(fs[j]) && fs[j].published == p != ""
    {
      LaunchBlockDate(1 + j, fs[j], p);
    }
  }

  lemma StrippedDates(fs: seq<StrippedItem>, p: string)
    ensures ("Published: " + p) in Numbered(fs, 1, LaunchBlock) <==>
      exists j :: 0 <= j < |fs| && HasBlock(fs[j]) && fs[j].published == p != ""
  {
    NumberedMembers(fs, 1, LaunchBlock, "Published: " + p);
    LaunchBlocksDate(fs, p);
  }

  /** A `Published:` line is in the brief exactly when some kept item has
      that non-empty stripped date. */
  lemma LaunchDates(items: seq<SearchItem>, p: string)
    ensures ("Published: " + p) in LaunchLines(items) <==>
      exists j :: 0 <= j < |items| && Kept(items[j]) && Strip(items[j].published) == p != ""
  {
    var fs := StripAll(items);
    StrippedDates(fs, p);
    if ("Published: " + p) in LaunchLines(items) {
      var j :| 0 <= j < |fs| && HasBlock(fs[j]) && fs[j].published == p != "";
      assert Kept(items[j]) && Strip(items[j].published) == p;
    }
    if j :| 0 <= j < |items| && Kept(items[j]) && Strip(items[j].published) == p != "" {
      assert HasBlock(fs[j]) && fs[j].published == p;
    }
  }

  lemma SnippetInBlock(i: nat, f: StrippedItem, line: string)
    requires line in LaunchBlock(i, f) && |line| > 0 && line[0] == 'S'
    ensures f.summary != ""
    ensures line == "Snippet: " + Prefix(f.summary, SnippetCap)
  {
    BlockExtra(i, f.title, f.published, f.link, SnippetLines(f.summary), line);
  }

  lemma StrippedSnippetCap(fs: seq<StrippedItem>, line: string)
    requires line in Numbered(fs, 1, LaunchBlock) && |line| > 0 && line[0] == 'S'
    ensures exists j :: 0 <= j < |fs| && HasBlock(fs[j]) && fs[j].summary != "" &&
                        line == "Snippet: " + Prefix(fs[j].summary, SnippetCap)
  {
    NumberedMembers(fs, 1, LaunchBlock, line);
    var j :| 0 <= j < |fs| && line in LaunchBlock(1 + j, fs[j]);
    SnippetInBlock(1 + j, fs[j], line);
  }

  /** Every `Snippet:` line of the brief is the start, at most 280
      characters, of the stripped summary of some kept item. */
  lemma LaunchSnippetCap(items: seq<SearchItem>, line: string)
    requires line in LaunchLines(items) && StartsWith(line, "Snippet: ")
    ensures exists j :: 0 <= j < |items| && Kept(items[j]) && Strip(items[j].summary) != "" &&
                        line == "Snippet: " + Prefix(Strip(items[j].summary), SnippetCap)
    ensures |line| <= 9 + SnippetCap
  {
    var fs := StripAll(items);
    StartsWithFirst(line, "Snippet: ");
    StrippedSnippetCap(fs, line);
    var j :| 0 <= j < |fs| && HasBlock(fs[j]) && fs[j].summary != "" &&
             line == "Snippet: " + Prefix(fs[j].summary, SnippetCap);
    assert Kept(items[j]) && fs[j].summary == Strip(items[j].summary);
  }

  /** Every kept item with a non-empty stripped summary has its `Snippet:`
      line. */
  lemma LaunchSnippetPresent(items: seq<SearchItem>, j: int)
    requires 0 <= j < |items| && Kept(items[j]) && Strip(items[j].summary) != ""
    ensures ("Snippet: " + Prefix(Strip(items[j].summary), SnippetCap)) in LaunchLines(items)
  {
    var fs := StripAll(items);
    var f := fs[j];
    var line := "Snippet: " + Prefix(f.summary, SnippetCap);
    BlockExtra(1 + j, f.title, f.published, f.link, SnippetLines(f.summary), line);
    NumberedMembers(fs, 1, LaunchBlock, line);
  }

  // ----- The returned text -----

  /** Every line is free of line breaks. */
  predicate AllSingleLine(ls: seq<string>) {
    forall line :: line in ls ==> SingleLine(line)
  }

  /** The shape of a non-empty list of blocks: it opens with a numbered
      heading and closes with a labelled line (a `URL:` line or a
      kind-specific one) followed by the blank line. */
  predicate Framed(ls: seq<string>) {
    && |ls| >= 2 && ls[|ls| - 1] == ""
    && |ls[0]| > 0 && IsDigit(ls[0][0])
    && |ls[|ls| - 2]| > 0 && 'A' <= ls[|ls| - 2][0] <= 'Z' && ls[|ls| - 2][0] != 'P'
  }

  lemma BlockFramed(i: nat, title: string, published: string, url: string, extras: seq<string>)
    requires Labelled(extras)
    ensures Framed(Block(i, title, published, url, extras))
  {
    var b := Block(i, title, published, url, extras);
    HeadingStartsWithDigit(i, title);
    assert b[0] == Heading(i, title);
    if |extras| > 0 {
      assert b[|b| - 2] == extras[|extras| - 1];
    } else {
      assert b[|b| - 2] == "URL: " + url;
    }
  }

  lemma {:induction false} NumberedFramed<T>(xs: seq<T>, start: nat, block: (nat, T) -> seq<string>)
    requires forall j :: 0 <= j < |xs| ==> block(start + j, xs[j]) == [] || Framed(block(start + j, xs[j]))
    ensures Numbered(xs, start, block) == [] || Framed(Numbered(xs, start, block))
    decreases |xs|
  {
    if |xs| > 0 {
      assert block(start + 0, xs[0]) == [] || Framed(block(start + 0, xs[0]));
      forall j | 0 <= j < |xs| - 1
        ensures block(start + 1 + j, xs[1..][j]) == [] || Framed(block(start + 1 + j, xs[1..][j]))
      {
        assert block(start + (j + 1), xs[j + 1]) == [] || Framed(block(start + (j + 1), xs[j + 1]));
      }
      NumberedFramed(xs[1..], start + 1, block);
    }
  }

  lemma NumberedSingleLine<T>(xs: seq<T>, start: nat, block: (nat, T) -> seq<string>)
    requires forall j :: 0 <= j < |xs| ==> AllSingleLine(block(start + j, xs[j]))
    ensures AllSingleLine(Numbered(xs, start, block))
  {
    forall line | line in Numbered(xs, start, block)
      ensures SingleLine(line)
    {
      NumberedMembers(xs, start, block, line);
    }
  }

  lemma NumeralSingleLine(n: nat)
    ensures SingleLine(NatToString(n))
  {
    var d := NatToString(n);
    assert forall k :: 0 <= k < |d| ==> d[k] != '\n';
  }

  lemma BlockSingleLine(i: nat, title: string, published: string, url: string, extras: seq<string>)
    requires SingleLine(title) && SingleLine(published) && SingleLine(url) && AllSingleLine(extras)
    ensures AllSingleLine(Block(i, title, published, url, extras))
  {
    NumeralSingleLine(i);
    forall line | line in Block(i, title, published, url, extras)
      ensures SingleLine(line)
    {
      BlockMembers(i, title, published, url, extras, line);
    }
  }

  lemma PrefixSingleLine(s: string, n: int)
    requires SingleLine(s)
    ensures SingleLine(Prefix(s, n))
  {
    var r := Prefix(s, n);
    assert forall k :: 0 <= k < |r| ==> r[k] == s[k];
  }

  /** Joining the lines with newlines and stripping gives text whose lines
      are the list's lines, without the closing blank line and with the
      trailing whitespace of the last labelled line removed. */
  lemma BriefText(ls: seq<string>)
    requires Framed(ls) && AllSingleLine(ls)
    ensures Split(Strip(Join(ls, "\n")), '\n') == ls[..|ls| - 2] + [Strip(ls[|ls| - 2])]
  {
    var n := |ls|;
    var P, x := ls[..n - 2], ls[n - 2];
    FramedParts(ls);
    forall k | 0 <= k < |P|
      ensures SingleLine(P[k])
    {
      assert ls[k] in ls;
    }
    assert ls[n - 2] in ls;
    ClosedLines(P, x);
  }

  lemma BriefTextOf(ls: seq<string>, brief: string)
    requires Framed(ls) && AllSingleLine(ls) && brief == Strip(Join(ls, "\n"))
    ensures |ls| >= 2 && Split(brief, '\n') == ls[..|ls| - 2] + [Strip(ls[|ls| - 2])]
  {
    BriefText(ls);
  }

  /** A framed list is some lines, the closing labelled line and the blank
      line. */
  lemma FramedParts(ls: seq<string>)
    requires Framed(ls)
    ensures |ls| > 2
    ensures ls == ls[..|ls| - 2] + [ls[|ls| - 2]] + [""]
  {
    assert !IsDigit(ls[|ls| - 2][0]);
  }

  lemma ClosedLines(P: seq<string>, x: string)
    requires |P| > 0 && |P[0]| > 0 && IsDigit(P[0][0])
    requires forall k :: 0 <= k < |P| ==> SingleLine(P[k])
    requires |x| > 0 && 'A' <= x[0] <= 'Z' && SingleLine(x)
    ensures Split(Strip(Join(P + [x] + [""], "\n")), '\n') == P + [Strip(x)]
  {
    ClosedText(P, x);
    LastLineSplit(P, x);
  }

  /** The text of lines `P`, then `x`, then a blank line, once stripped. */
  lemma ClosedText(P: seq<string>, x: string)
    requires |P| > 0 && |P[0]| > 0 && !IsSpace(P[0][0])
    requires |x| > 0 && !IsSpace(x[0])
    ensures Strip(Join(P + [x] + [""], "\n")) == Join(P, "\n") + "\n" + Strip(x)
  {
    var jp := Join(P, "\n");
    JoinClosed(P, x);
    StartsWithFirst(jp, P[0]);
    StripClosed(jp, x);
  }

  lemma JoinClosed(P: seq<string>, x: string)
    requires |P| > 0
    ensures Join(P + [x] + [""], "\n") == (Join(P, "\n") + "\n") + (x + "\n")
  {
    var jp := Join(P, "\n");
    JoinSnoc(P + [x], "", "\n");
    JoinSnoc(P, x, "\n");
    ClosedRegroup(jp, x);
  }

  lemma ClosedRegroup(jp: string, x: string)
    ensures jp + "\n" + x + "\n" + "" == (jp + "\n") + (x + "\n")
  {
  }

  lemma StripClosed(jp: string, x: string)
    requires |jp| > 0 && !IsSpace(jp[0])
    requires |x| > 0 && !IsSpace(x[0])
    ensures Strip((jp + "\n") + (x + "\n")) == jp + "\n" + Strip(x)
  {
    StripFront(jp + "\n", x + "\n");
    StripBreak(x);
  }

  lemma LastLineSplit(P: seq<string>, x: string)
    requires |P| > 0
    requires forall k :: 0 <= k < |P| ==> SingleLine(P[k])
    requires SingleLine(x)
    ensures Split(Join(P, "\n") + "\n" + Strip(x), '\n') == P + [Strip(x)]
  {
    JoinSnoc(P, Strip(x), "\n");
    StripSingleLine(x);
    SingleLineSnoc(P, Strip(x));
    SplitJoin(P + [Strip(x)], '\n');
  }

  lemma SingleLineSnoc(P: seq<string>, y: string)
    requires forall k :: 0 <= k < |P| ==> SingleLine(P[k])
    requires SingleLine(y)
    ensures forall k :: 0 <= k < |P + [y]| ==> '\n' !in (P + [y])[k]
  {
  }

  /** A line that differs from the closing labelled line in its first
      character, or any line when that closing line has no trailing
      whitespace, is a line of the text exactly when it is in the list. */
  lemma BriefLineKept(ls: seq<string>, line: string)
    requires Framed(ls) && AllSingleLine(ls)
    requires |line| > 0 && (line[0] != ls[|ls| - 2][0] || NoEdgeSpace(ls[|ls| - 2]))
    ensures line in Split(Strip(Join(ls, "\n")), '\n') <==> line in ls
  {
    BriefText(ls);
    FramedParts(ls);
    LastLineKept(ls[..|ls| - 2], ls[|ls| - 2], line);
  }

  /** Headings are never the closing labelled line. */
  lemma HeadingKept(ls: seq<string>, n: nat, t: string)
    requires Framed(ls) && AllSingleLine(ls)
    ensures Heading(n, t) in Split(Strip(Join(ls, "\n")), '\n') <==> Heading(n, t) in ls
  {
    HeadingStartsWithDigit(n, t);
    var x := ls[|ls| - 2];
    assert Heading(n, t)[0] != x[0] by { assert !IsDigit(x[0]); }
    BriefLineKept(ls, Heading(n, t));
  }

  /** Date lines are never the closing labelled line. */
  lemma DateKept(ls: seq<string>, p: string)
    requires Framed(ls) && AllSingleLine(ls)
    ensures ("Published: " + p) in Split(Strip(Join(ls, "\n")), '\n') <==> ("Published: " + p) in ls
  {
    assert ("Published: " + p)[0] == 'P';
    BriefLineKept(ls, "Published: " + p);
  }

  /** `URL:` lines are kept when the closing line, should it be one, has
      no surrounding whitespace. */
  /** Every line that starts with `U` has no surrounding whitespace. */
  predicate UrlLinesClean(ls: seq<string>) {
    forall line :: line in ls && |line| > 0 && line[0] == 'U' ==> NoEdgeSpace(line)
  }

  lemma UrlKept(ls: seq<string>, u: string)
    requires Framed(ls) && AllSingleLine(ls) && UrlLinesClean(ls)
    ensures ("URL: " + u) in Split(Strip(Join(ls, "\n")), '\n') <==> ("URL: " + u) in ls
  {
    assert ("URL: " + u)[0] == 'U';
    assert ls[|ls| - 2] in ls;
    BriefLineKept(ls, "URL: " + u);
  }

  lemma LastLineKept(P: seq<string>, x: string, line: string)
    requires |x| > 0 && !IsSpace(x[0])
    requires |line| > 0 && (line[0] != x[0] || NoEdgeSpace(x))
    ensures line in P + [Strip(x)] <==> line in P + [x] + [""]
  {
    LeadUnique(x, 0);
    assert Strip(x)[0] == x[0];
  }

  /** The fields of an article hold no line break, as for every article
      the daily run fetches (their fields are cleaned). */
  predicate SingleLineArticle(a: Article) {
    && SingleLine(a.title) && SingleLine(a.url) && SingleLine(a.published) && SingleLine(a.summary)
    && (a.content.Some? ==> SingleLine(a.content.value))
  }

  lemma RegularLinesShape(articles: seq<Article>)
    requires |articles| > 0
    requires forall j :: 0 <= j < |articles| ==> SingleLineArticle(articles[j])
    ensures Framed(RegularLines(articles)) && AllSingleLine(RegularLines(articles))
  {
    forall j | 0 <= j < |articles|
      ensures Framed(RegularBlock(1 + j, articles[j])) && AllSingleLine(RegularBlock(1 + j, articles[j]))
    {
      var a := articles[j];
      BlockFramed(1 + j, a.title, a.published, a.url, RegularExtras(a));
      if a.content.Some? {
        PrefixSingleLine(a.content.value, KeyTextCap);
      }
      BlockSingleLine(1 + j, a.title, a.published, a.url, RegularExtras(a));
    }
    NumberedFramed(articles, 1, RegularBlock);
    NumberedSingleLine(articles, 1, RegularBlock);
    RegularHeadingPresent(articles, 0);
  }

  /** For articles on one line each, the lines of the returned brief are
      the blocks' lines in order, without the closing blank line and with
      trailing whitespace stripped from the last one. */
  lemma RegularBriefText(articles: seq<Article>)
    requires |articles| > 0
    requires forall j :: 0 <= j < |articles| ==> SingleLineArticle(articles[j])
    ensures var ls := RegularLines(articles);
      |ls| >= 2 && Split(BuildRegularNewsBrief(articles), '\n') == ls[..|ls| - 2] + [Strip(ls[|ls| - 2])]
  {
    RegularLinesShape(articles);
    RegularBriefJoined(articles);
    BriefTextOf(RegularLines(articles), BuildRegularNewsBrief(articles));
  }

  lemma RegularBriefJoined(articles: seq<Article>)
    ensures BuildRegularNewsBrief(articles) == Strip(Join(RegularLines(articles), "\n"))
  {
  }

  lemma EmptyBriefLines(h: string)
    requires |h| > 0
    ensures h !in Split("", '\n')
  {
  }

  /** The returned brief has the line `n) t` exactly when the `n`-th
      article has title `t`. */
  lemma RegularBriefHeadings(articles: seq<Article>, n: nat, t: string)
    requires forall j :: 0 <= j < |articles| ==> SingleLineArticle(articles[j])
    ensures Heading(n, t) in Split(BuildRegularNewsBrief(articles), '\n') <==>
      1 <= n <= |articles| && t == articles[n - 1].title
  {
    HeadingStartsWithDigit(n, t);
    RegularHeadings(articles, n, t);
    if |articles| == 0 {
      EmptyBriefLines(Heading(n, t));
    } else {
      RegularLinesShape(articles);
      HeadingKept(RegularLines(articles), n, t);
    }
  }

  /** The returned brief has the line `Published: p` exactly when some
      article has the non-empty date `p`. */
  lemma RegularBriefDates(articles: seq<Article>, p: string)
    requires forall j :: 0 <= j < |articles| ==> SingleLineArticle(articles[j])
    ensures ("Published: " + p) in Split(BuildRegularNewsBrief(articles), '\n') <==>
      exists j :: 0 <= j < |articles| && articles[j].published == p != ""
  {
    RegularDates(articles, p);
    if |articles| == 0 {
      EmptyBriefLines("Published: " + p);
    } else {
      RegularLinesShape(articles);
      DateKept(RegularLines(articles), p);
    }
  }

  /** A line of the articles' lines that starts with `U` is the `URL:` line
      of one of them. */
  lemma RegularUrlLine(articles: seq<Article>, line: string)
    requires line in RegularLines(articles) && |line| > 0 && line[0] == 'U'
    ensures exists j :: 0 <= j < |articles| && line == "URL: " + articles[j].url
  {
    NumberedMembers(articles, 1, RegularBlock, line);
    var j :| 0 <= j < |articles| && line in RegularBlock(1 + j, articles[j]);
    UrlLineInBlock(1 + j, articles[j].title, articles[j].published, articles[j].url,
                   RegularExtras(articles[j]), line);
  }

  lemma UrlLineInBlock(i: nat, title: string, published: string, url: string, extras: seq<string>,
                       line: string)
    requires Labelled(extras)
    requires line in Block(i, title, published, url, extras) && |line| > 0 && line[0] == 'U'
    ensures line == "URL: " + url
  {
    BlockMembers(i, title, published, url, extras, line);
    HeadingStartsWithDigit(i, title);
    assert line !in extras by {
      forall k | 0 <= k < |extras| ensures extras[k] != line {
        assert extras[k][0] != 'U';
      }
    }
  }

  /** For articles whose URLs are non-empty with no surrounding whitespace
      (as fetched URLs are), the returned brief has the line `URL: u`
      exactly when some article has URL `u`. */
  lemma RegularBriefUrls(articles: seq<Article>, u: string)
    requires forall j :: 0 <= j < |articles| ==> SingleLineArticle(articles[j])
    requires forall j :: 0 <= j < |articles| ==> articles[j].url != "" && NoEdgeSpace(articles[j].url)
    ensures ("URL: " + u) in Split(BuildRegularNewsBrief(articles), '\n') <==>
      exists j :: 0 <= j < |articles| && articles[j].url == u
  {
    RegularUrls(articles, u);
    if |articles| == 0 {
      EmptyBriefLines("URL: " + u);
    } else {
      RegularLinesShape(articles);
      RegularUrlsClean(articles);
      UrlKept(RegularLines(articles), u);
    }
  }

  /** Every `URL:` line of the articles' lines has no surrounding
      whitespace when the URLs have none. */
  lemma RegularUrlsClean(articles: seq<Article>)
    requires forall j :: 0 <= j < |articles| ==> articles[j].url != "" && NoEdgeSpace(articles[j].url)
    ensures UrlLinesClean(RegularLines(articles))
  {
    forall line | line in RegularLines(articles) && |line| > 0 && line[0] == 'U'
      ensures NoEdgeSpace(line)
    {
      RegularUrlLine(articles, line);
      var j :| 0 <= j < |articles| && line == "URL: " + articles[j].url;
      UrlLineClean(articles[j].url);
    }
  }

  lemma UrlLineClean(url: string)
    requires url != "" && NoEdgeSpace(url)
    ensures NoEdgeSpace("URL: " + url)
  {
    var x := "URL: " + url;
    assert x[|x| - 1] == url[|url| - 1];
  }

  /** The raw fields of a search item hold no line break. */
  predicate SingleLineItem(n: SearchItem) {
    SingleLine(n.title) && SingleLine(n.link) && SingleLine(n.published) && SingleLine(n.summary)
  }

  /** Some item is kept and no raw field holds a line break. */
  predicate SomeKeptAllSingleLine(items: seq<SearchItem>) {
    && (exists j :: 0 <= j < |items| && Kept(items[j]))
    && (forall j :: 0 <= j < |items| ==> SingleLineItem(items[j]))
  }

  lemma LaunchLinesShape(items: seq<SearchItem>)
    requires SomeKeptAllSingleLine(items)
    ensures Framed(LaunchLines(items)) && AllSingleLine(LaunchLines(items))
  {
    var fs := StripAll(items);
    forall j | 0 <= j < |fs|
      ensures LaunchBlock(1 + j, fs[j]) == [] || Framed(LaunchBlock(1 + j, fs[j]))
      ensures AllSingleLine(LaunchBlock(1 + j, fs[j]))
    {
      LaunchBlockShape(1 + j, items[j]);
    }
    NumberedFramed(fs, 1, LaunchBlock);
    NumberedSingleLine(fs, 1, LaunchBlock);
    var j :| 0 <= j < |items| && Kept(items[j]);
    LaunchHeadings(items, j + 1, Strip(items[j].title));
  }

  lemma LaunchBlockShape(i: nat, n: SearchItem)
    requires SingleLineItem(n)
    ensures LaunchBlock(i, StripItem(n)) == [] || Framed(LaunchBlock(i, StripItem(n)))
    ensures AllSingleLine(LaunchBlock(i, StripItem(n)))
  {
    var f := StripItem(n);
    if HasBlock(f) {
      BlockFramed(i, f.title, f.published, f.link, SnippetLines(f.summary));
      StripSingleLine(n.title);
      StripSingleLine(n.link);
      StripSingleLine(n.published);
      StripSingleLine(n.summary);
      PrefixSingleLine(f.summary, SnippetCap);
      BlockSingleLine(i, f.title, f.published, f.link, SnippetLines(f.summary));
    }
  }

  /** For items on one line each with at least one kept, the lines of the
      returned brief are the kept blocks' lines in order, without the
      closing blank line and with trailing whitespace stripped from the
      last one. */
  lemma LaunchBriefText(items: seq<SearchItem>)
    requires SomeKeptAllSingleLine(items)
    ensures var ls := LaunchLines(items);
      |ls| >= 2 && Split(BuildLaunchNewsBrief(items), '\n') == ls[..|ls| - 2] + [Strip(ls[|ls| - 2])]
  {
    LaunchLinesShape(items);
    LaunchBriefJoined(items);
    BriefTextOf(LaunchLines(items), BuildLaunchNewsBrief(items));
  }

  lemma LaunchBriefJoined(items: seq<SearchItem>)
    ensures BuildLaunchNewsBrief(items) == Strip(Join(LaunchLines(items), "\n"))
  {
  }

  /** The returned brief has the line `m) t` exactly when the `m`-th item
      is kept and its stripped title is `t`. */
  lemma LaunchBriefHeadings(items: seq<SearchItem>, m: nat, t: string)
    requires forall j :: 0 <= j < |items| ==> SingleLineItem(items[j])
    ensures Heading(m, t) in Split(BuildLaunchNewsBrief(items), '\n') <==>
      1 <= m <= |items| && Kept(items[m - 1]) && t == Strip(items[m - 1].title)
  {
    HeadingStartsWithDigit(m, t);
    LaunchHeadings(items, m, t);
    if exists j :: 0 <= j < |items| && Kept(items[j]) {
      LaunchLinesShape(items);
      HeadingKept(LaunchLines(items), m, t);
    } else {
      EmptyBriefLines(Heading(m, t));
    }
  }

  /** The returned brief has the line `Published: p` exactly when some kept
      item has the non-empty stripped date `p`. */
  lemma LaunchBriefDates(items: seq<SearchItem>, p: string)
    requires forall j :: 0 <= j < |items| ==> SingleLineItem(items[j])
    ensures ("Published: " + p) in Split(BuildLaunchNewsBrief(items), '\n') <==>
      exists j :: 0 <= j < |items| && Kept(items[j]) && Strip(items[j].published) == p != ""
  {
    LaunchDates(items, p);
    if exists j :: 0 <= j < |items| && Kept(items[j]) {
      LaunchLinesShape(items);
      DateKept(LaunchLines(items), p);
    } else {
      EmptyBriefLines("Published: " + p);
    }
  }

  /** A line of the items' lines that starts with `U` is the `URL:` line of
      a kept item, so it has no surrounding whitespace. */
  lemma LaunchUrlLine(items: seq<SearchItem>, line: string)
    requires line in LaunchLines(items) && |line| > 0 && line[0] == 'U'
    ensures NoEdgeSpace(line)
  {
    var fs := StripAll(items);
    var j := NumberedIndex(fs, 1, LaunchBlock, line);
    LaunchBlockUrlLine(1 + j, items[j], line);
  }

  lemma LaunchBlockUrlLine(i: nat, n: SearchItem, line: string)
    requires line in LaunchBlock(i, StripItem(n)) && |line| > 0 && line[0] == 'U'
    ensures Kept(n) && line == "URL: " + Strip(n.link)
    ensures NoEdgeSpace(line)
  {
    var f := StripItem(n);
    UrlLineInBlock(i, f.title, f.published, f.link, SnippetLines(f.summary), line);
    UrlLineClean(f.link);
  }

  /** The returned brief has the line `URL: u` exactly when some kept item
      has the stripped link `u`. */
  lemma LaunchBriefUrls(items: seq<SearchItem>, u: string)
    requires forall j :: 0 <= j < |items| ==> SingleLineItem(items[j])
    ensures ("URL: " + u) in Split(BuildLaunchNewsBrief(items), '\n') <==>
      exists j :: 0 <= j < |items| && Kept(items[j]) && Strip(items[j].link) == u
  {
    LaunchUrls(items, u);
    if exists j :: 0 <= j < |items| && Kept(items[j]) {
      LaunchTextUrl(items, u);
    } else {
      EmptyBriefLines("URL: " + u);
    }
  }

  lemma LaunchTextUrl(items: seq<SearchItem>, u: string)
    requires SomeKeptAllSingleLine(items)
    ensures ("URL: " + u) in Split(BuildLaunchNewsBrief(items), '\n') <==> ("URL: " + u) in LaunchLines(items)
  {
    LaunchLinesShape(items);
    LaunchUrlsClean(items);
    UrlKept(LaunchLines(items), u);
  }

  /** Every `URL:` line of the items' lines has no surrounding whitespace:
      a kept link is stripped and non-empty. */
  lemma LaunchUrlsClean(items: seq<SearchItem>)
    ensures UrlLinesClean(LaunchLines(items))
  {
    forall line | line in LaunchLines(items) && |line| > 0 && line[0] == 'U'
      ensures NoEdgeSpace(line)
    {
      LaunchUrlLine(items, line);
    }
  }
}
