/** The keyword filter of news_fetch.py: an article is about stablecoins
    when some fixed keyword occurs in its lower-cased title and summary. */
module Relevance {
  import opened Text

  /** `STABLECOIN_KEYWORDS`, in the order the code lists them. */
  const Keywords: seq<string> := [
    "stablecoin", "stable coin", "peg", "depeg", "parity", "reserve", "reserves",
    "redemption", "issuer", "collateral", "attestation", "audit",
    "usdc", "usdt", "dai", "frax", "crvusd", "pyusd", "eurc", "usd0", "usde"
  ]

  /** `any(k in text for k in ks)`. */
  function AnyKeyword(text: string, ks: seq<string>): bool
  {
    |ks| > 0 && (Contains(text, ks[0]) || AnyKeyword(text, ks[1..]))
  }

  lemma {:induction false} AnyKeywordMeaning(text: string, ks: seq<string>)
    ensures AnyKeyword(text, ks) <==> exists k :: k in ks && Contains(text, k)
    decreases |ks|
  {
    if |ks| > 0 {
      AnyKeywordMeaning(text, ks[1..]);
      AnyKeywordStep(text, ks);
    }
  }

  lemma AnyKeywordStep(text: string, ks: seq<string>)
    requires |ks| > 0
    ensures (exists k :: k in ks && Contains(text, k))
       <==> Contains(text, ks[0]) || exists k :: k in ks[1..] && Contains(text, k)
  {
    if Contains(text, ks[0]) {
      assert ks[0] in ks;
    }
    if exists k :: k in ks && Contains(text, k) {
      var k :| k in ks && Contains(text, k);
      if k != ks[0] {
        assert k in ks[1..];
      }
    }
  }

  /** The text the filter searches: `f"{title} {summary}".lower()`. */
  function FilterText(title: string, summary: string): string {
    Lower(title + " " + summary)
  }

  lemma ContainsMeansOccursAll(text: string)
    ensures forall k :: Contains(text, k) <==> exists i :: OccursAt(text, k, i)
  {
    forall k {
      ContainsMeansOccurs(text, k);
    }
  }

  /** `is_stablecoin_related`: some keyword occurs somewhere in the
      lower-cased text. */
  predicate IsStablecoinRelated(title: string, summary: string)
  {
    AnyKeyword(FilterText(title, summary), Keywords)
  }

  /** The filter holds exactly when some keyword occurs, at some offset, in
      the lower-cased `title + " " + summary`. */
  lemma RelatedIffKeywordOccurs(title: string, summary: string)
    ensures IsStablecoinRelated(title, summary)
        <==> exists k, i :: k in Keywords && OccursAt(FilterText(title, summary), k, i)
  {
    var text := FilterText(title, summary);
    ContainsMeansOccursAll(text);
    AnyKeywordMeaning(text, Keywords);
  }

  /** Changing the letter case of the title or the summary never changes
      the verdict. */
  lemma {:induction false} CaseInsensitive(t1: string, s1: string, t2: string, s2: string)
    requires SameUpToCase(t1, t2) && SameUpToCase(s1, s2)
    ensures IsStablecoinRelated(t1, s1) == IsStablecoinRelated(t2, s2)
  {
    var a, b := t1 + " " + s1, t2 + " " + s2;
    assert SameUpToCase(a, b) by {
      forall i | 0 <= i < |a|
        ensures LowerChar(a[i]) == LowerChar(b[i])
      {
        if i < |t1| {
          assert a[i] == t1[i] && b[i] == t2[i];
        } else if i > |t1| {
          assert a[i] == s1[i - |t1| - 1] && b[i] == s2[i - |t2| - 1];
        }
      }
    }
    LowerOfSameCase(a, b);
  }

  /** An upper-case ticker in the title is found: `USDC` matches the
      keyword `usdc`. */
  lemma UpperCaseTickerMatches()
    ensures IsStablecoinRelated("USDC depegged", "")
  {
    var text := FilterText("USDC depegged", "");
    assert text[0] == 'u' && text[1] == 's' && text[2] == 'd' && text[3] == 'c';
    assert OccursAt(text, "usdc", 0);
    assert Keywords[12] == "usdc";
    RelatedIffKeywordOccurs("USDC depegged", "");
  }
}
