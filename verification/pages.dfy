/** The two records the search engine passes around, and the URL tests it applies to them. */
module Pages {
  import opened Text

  /** A candidate page: the link and the result title it was found under. */
  datatype WebPage = WebPage(url: string, title: string)

  /** A page with its computed relevance score. */
  datatype SearchResult = SearchResult(page: WebPage, score: real)

  function ScoreOf(r: SearchResult): real {
    r.score
  }

  /** The quota domain: the lower-cased URL contains `wikipedia.org`. */
  predicate IsWikiUrl(url: string) {
    Contains(ToLower(url), "wikipedia.org")
  }

  predicate IsWiki(r: SearchResult) {
    IsWikiUrl(r.page.url)
  }

  /** The video-hosting block list, matched case-sensitively on the URL as it stands. */
  predicate IsYouTube(url: string) {
    Contains(url, "youtube.com") || Contains(url, "youtu.be")
  }
}
