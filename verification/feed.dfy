/** What `feedparser.parse` hands both fetchers. */
module Feed {
  /** A parsed feed entry. An attribute the parser did not set reads as
      the empty string, as `getattr(e, name, "")` does. */
  datatype FeedEntry = FeedEntry(
    title: string,
    link: string,
    summary: string,
    description: string,
    published: string,
    updated: string)

  /** The result of `feedparser.parse` for one URL: its entries (an absent
      list counts as empty, as `d.entries or []` reads it), or an
      exception. */
  datatype FeedOutcome = ParseFailed | Parsed(entries: seq<FeedEntry>)
}
