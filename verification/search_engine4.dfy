/**
 * Revision 4.0 of the search engine: the title and up to two sub-pages are
 * scored with the same keyword table, the sub-page sum is damped by 0.5,
 * results are sorted by descending score and the top 15 are picked with at
 * most 3 Wikipedia links, the best of them first.
 *
 * Fetching is a parameter: `fetch(url)` is the text of the page (`None` when
 * the fetch throws `IOException`) and `linksOf(text)` the `abs:href` values
 * of the `a[href]` elements Jsoup finds when it parses that text.
 */
module SearchEngine4 {
  import opened Wrappers
  import opened Text
  import opened Seqs
  import opened Ranking
  import opened Pages
  import opened Keywords
  import opened Selection

  const FriendsWeight: real := 3.0
  const RachelWeight: real := 2.5
  const MonicaWeight: real := 2.5
  const ChandlerWeight: real := 2.0
  const JoeyWeight: real := 2.0
  const PhoebeWeight: real := 2.0
  const RossWeight: real := 2.0
  const CentralPerkWeight: real := 2.0
  const LiuRenXingWeight: real := 1.5
  const EricAscelineWeight: real := 2.5
  const DavidCraneWeight: real := 2.5
  const SubPageRatio: real := 0.5

  const TotalDesired: nat := 15
  const MaxWiki: nat := 3
  const MaxSubLinks: nat := 2

  /** The rules of `calcScoreFromText`, in source order. */
  const Rules: seq<Rule> := [
    Rule(["friends", "six friends", "六人行"], FriendsWeight),
    Rule(["rachel"], RachelWeight),
    Rule(["monica"], MonicaWeight),
    Rule(["chandler"], ChandlerWeight),
    Rule(["joey"], JoeyWeight),
    Rule(["phoebe"], PhoebeWeight),
    Rule(["ross"], RossWeight),
    Rule(["central perk", "中央咖啡館"], CentralPerkWeight),
    Rule(["liu renxing", "六人行"], LiuRenXingWeight),
    Rule(["eric ascieline"], EricAscelineWeight),
    Rule(["david crane"], DavidCraneWeight)
  ]

  /**
   * `calcScoreFromText`. Every weight is positive, so the score lies between
   * 0 and the sum of all weights plus one point per query token.
   */
  function TextScore(text: string, query: string): (r: real)
    ensures AllPositive(Rules)
    ensures 0.0 <= r <= PositiveSum(Rules) + |Tokens(ToLower(query))| as real
  {
    assert AllPositive(Rules);
    TextScoreNonNegative(Rules, text, query);
    TableScoreBounds(Rules, ToLower(text));
    QueryBonusBounds(Tokens(ToLower(query)), ToLower(text));
    Keywords.TextScore(Rules, text, query)
  }

  /**
   * Text containing 六人行 fires both the Friends rule and the Liu Renxing
   * rule, so it scores at least their sum, 4.5.
   */
  lemma LiuRenXingFiresTwoRules(text: string, query: string)
    requires Contains(ToLower(text), "六人行")
    ensures Fires(Rules[0], ToLower(text)) && Fires(Rules[8], ToLower(text))
    ensures TextScore(text, query) >= FriendsWeight + LiuRenXingWeight
  {
    var lower := ToLower(text);
    assert Rules[0].triggers[2] == "六人行";
    assert Rules[8].triggers[1] == "六人行";
    RuleAddsOnce(Rules, 0, lower);
    var without0 := Rules[..0] + Rules[1..];
    assert without0[7] == Rules[8];
    RuleAddsOnce(without0, 7, lower);
    var rest := without0[..7] + without0[8..];
    assert AllPositive(Rules);
    assert AllPositive(rest) by {
      forall k | 0 <= k < |rest| ensures rest[k].weight > 0.0 {
        assert rest[k] in Rules;
      }
    }
    TableScoreNonNegative(rest, lower);
    QueryBonusBounds(Tokens(ToLower(query)), lower);
  }

  /** `calculateScore`: the title alone. */
  function TitleScore(page: WebPage, query: string): real {
    TextScore(page.title, query)
  }

  /** `calculateSubPageScore`: a failed fetch scores 0. */
  function SubPageScore(fetched: Option<string>, query: string): (r: real)
    ensures fetched.None? ==> r == 0.0
    ensures 0.0 <= r <= PositiveSum(Rules) + |Tokens(ToLower(query))| as real
  {
    match fetched
    case None => 0.0
    case Some(text) => TextScore(text, query)
  }

  /** The link loop of `pickTwoSubLinks`: skip YouTube links, stop after `n` kept links. */
  function FirstNonYouTube(links: seq<string>, n: nat): seq<string> {
    if links == [] || n == 0 then []
    else if IsYouTube(links[0]) then FirstNonYouTube(links[1..], n)
    else [links[0]] + FirstNonYouTube(links[1..], n - 1)
  }

  /** The links that are not YouTube links, in order. */
  function NonYouTube(links: seq<string>): (r: seq<string>)
    ensures forall u :: u in r <==> u in links && !IsYouTube(u)
  {
    if links == [] then []
    else if IsYouTube(links[0]) then NonYouTube(links[1..])
    else [links[0]] + NonYouTube(links[1..])
  }

  lemma {:induction false} FirstNonYouTubeIsTake(links: seq<string>, n: nat)
    ensures FirstNonYouTube(links, n) == Take(NonYouTube(links), n)
    decreases |links|
  {
    if links == [] || n == 0 {
    } else if IsYouTube(links[0]) {
      FirstNonYouTubeIsTake(links[1..], n);
    } else {
      FirstNonYouTubeIsTake(links[1..], n - 1);
      TakeCons(links[0], NonYouTube(links[1..]), n);
    }
  }

  /**
   * `pickTwoSubLinks`: the first two non-YouTube links of the main page; a
   * failed main-page fetch yields none.
   */
  function SubLinks(mainPage: Option<string>, linksOf: string -> seq<string>): (r: seq<string>)
    ensures |r| <= MaxSubLinks
    ensures forall u :: u in r ==> !IsYouTube(u)
    ensures mainPage.None? ==> r == []
    ensures mainPage.Some? ==> r == Take(NonYouTube(linksOf(mainPage.value)), MaxSubLinks)
  {
    match mainPage
    case None => []
    case Some(text) =>
      FirstNonYouTubeIsTake(linksOf(text), MaxSubLinks);
      assert forall u :: u in Take(NonYouTube(linksOf(text)), MaxSubLinks) ==> u in NonYouTube(linksOf(text));
      FirstNonYouTube(linksOf(text), MaxSubLinks)
  }

  /** The summing loop of `calculateScoreWithSubPages`. */
  function SubScoreSum(links: seq<string>, query: string, fetch: string -> Option<string>): (r: real)
    ensures r >= 0.0
  {
    if links == [] then 0.0
    else SubPageScore(fetch(links[0]), query) + SubScoreSum(links[1..], query, fetch)
  }

  lemma {:induction false} SubScoreSumAppend(a: seq<string>, b: seq<string>, query: string, fetch: string -> Option<string>)
    ensures SubScoreSum(a + b, query, fetch) == SubScoreSum(a, query, fetch) + SubScoreSum(b, query, fetch)
    decreases |a|
  {
    if a == [] {
      assert a + b == b;
    } else {
      SubScoreSumAppend(a[1..], b, query, fetch);
      assert (a + b)[1..] == a[1..] + b;
    }
  }

  /** A sub-page whose fetch fails contributes nothing to the sum. */
  lemma FailedSubPageContributesNothing(pre: seq<string>, link: string, post: seq<string>, query: string, fetch: string -> Option<string>)
    requires fetch(link).None?
    ensures SubScoreSum(pre + [link] + post, query, fetch) == SubScoreSum(pre + post, query, fetch)
  {
    SubScoreSumAppend(pre + [link], post, query, fetch);
    SubScoreSumAppend(pre, [link], query, fetch);
    SubScoreSumAppend(pre, post, query, fetch);
  }

  /** `calculateScoreWithSubPages`. */
  function CompositeScore(page: WebPage, query: string, fetch: string -> Option<string>, linksOf: string -> seq<string>): (r: real)
    ensures r >= TitleScore(page, query)
    ensures fetch(page.url).None? ==> r == TitleScore(page, query)
  {
    var subLinks := SubLinks(fetch(page.url), linksOf);
    TitleScore(page, query) + SubPageRatio * SubScoreSum(subLinks, query, fetch)
  }

  /**
   * The composite is the title score plus half the scores of at most two
   * non-YouTube links of the main page, each 0 when its fetch fails.
   */
  lemma CompositeScoreParts(page: WebPage, query: string, fetch: string -> Option<string>, linksOf: string -> seq<string>)
    ensures var links := SubLinks(fetch(page.url), linksOf);
            && |links| <= 2
            && (forall u :: u in links ==> !IsYouTube(u))
            && CompositeScore(page, query, fetch, linksOf)
               == TitleScore(page, query)
                  + 0.5 * (if |links| == 0 then 0.0
                           else if |links| == 1 then SubPageScore(fetch(links[0]), query)
                           else SubPageScore(fetch(links[0]), query) + SubPageScore(fetch(links[1]), query))
  {
    var links := SubLinks(fetch(page.url), linksOf);
    var sum := SubScoreSum(links, query, fetch);
    if |links| == 2 {
      assert links[1..][1..] == [] && links[1..][0] == links[1];
      assert SubScoreSum(links[1..], query, fetch) == SubPageScore(fetch(links[1]), query) + SubScoreSum(links[1..][1..], query, fetch);
      assert sum == SubPageScore(fetch(links[0]), query) + SubPageScore(fetch(links[1]), query) + SubScoreSum([], query, fetch);
    } else if |links| == 1 {
      assert links[1..] == [];
      assert sum == SubPageScore(fetch(links[0]), query) + SubScoreSum([], query, fetch);
    }
  }

  /** Step 1 of `searchAndSort`: one result per page, in page order. */
  function ScorePages(pages: seq<WebPage>, query: string, fetch: string -> Option<string>, linksOf: string -> seq<string>): (r: seq<SearchResult>)
    ensures |r| == |pages|
    ensures forall i :: 0 <= i < |r| ==> r[i].page == pages[i] && r[i].score == CompositeScore(pages[i], query, fetch, linksOf)
    ensures NoDup(pages) ==> NoDup(r)
  {
    seq(|pages|, i requires 0 <= i < |pages| => SearchResult(pages[i], CompositeScore(pages[i], query, fetch, linksOf)))
  }

  /** `pickTop15WithWikiConstraint`. */
  function PickTop15WithWikiConstraint(results: seq<SearchResult>): seq<SearchResult> {
    PickTop(results, TotalDesired, MaxWiki)
  }

  /** `searchAndSort`: score, stable sort by descending score, pick the top 15. */
  function SearchAndSort(pages: seq<WebPage>, query: string, fetch: string -> Option<string>, linksOf: string -> seq<string>): seq<SearchResult> {
    PickTop15WithWikiConstraint(SortDesc(ScorePages(pages, query, fetch, linksOf), ScoreOf))
  }

  /**
   * At most 15 results, at most 3 of them Wikipedia links, each a scored
   * input page; when some page is a Wikipedia link the best-scored one comes
   * first and the rest follow in descending score order.
   */
  lemma SearchAndSortContract(pages: seq<WebPage>, query: string, fetch: string -> Option<string>, linksOf: string -> seq<string>)
    ensures |SearchAndSort(pages, query, fetch, linksOf)| <= 15
    ensures WikiCount(SearchAndSort(pages, query, fetch, linksOf)) <= 3
    ensures forall x :: x in SearchAndSort(pages, query, fetch, linksOf) ==>
              x.page in pages && x.score == CompositeScore(x.page, query, fetch, linksOf)
    ensures NoDup(pages) ==> NoDup(SearchAndSort(pages, query, fetch, linksOf))
    ensures (exists p :: p in pages && IsWikiUrl(p.url)) ==>
              var r := SearchAndSort(pages, query, fetch, linksOf);
              && r != [] && IsWiki(r[0])
              && (forall p :: p in pages && IsWikiUrl(p.url) ==> r[0].score >= CompositeScore(p, query, fetch, linksOf))
              && SortedDesc(r[1..], ScoreOf)
    ensures (forall p :: p in pages ==> !IsWikiUrl(p.url)) ==> SortedDesc(SearchAndSort(pages, query, fetch, linksOf), ScoreOf)
  {
    var scored := ScorePages(pages, query, fetch, linksOf);
    RankAndPickContract(scored, TotalDesired, MaxWiki);
    ScoredMembers(pages, query, fetch, linksOf);
  }

  /** Every ranked result is an input page. */
  lemma SearchAndSortMembers(pages: seq<WebPage>, query: string, fetch: string -> Option<string>, linksOf: string -> seq<string>)
    ensures forall x :: x in SearchAndSort(pages, query, fetch, linksOf) ==> x.page in pages
  {
    var scored := ScorePages(pages, query, fetch, linksOf);
    SortedSameElements(scored);
    ScoredMembers(pages, query, fetch, linksOf);
  }

  /** Every page is scored exactly once, and every scored entry is a page with its own score. */
  lemma ScoredMembers(pages: seq<WebPage>, query: string, fetch: string -> Option<string>, linksOf: string -> seq<string>)
    ensures forall p :: p in pages ==> SearchResult(p, CompositeScore(p, query, fetch, linksOf)) in ScorePages(pages, query, fetch, linksOf)
    ensures forall x :: x in ScorePages(pages, query, fetch, linksOf) ==>
              x.page in pages && x.score == CompositeScore(x.page, query, fetch, linksOf)
  {
    var scored := ScorePages(pages, query, fetch, linksOf);
    forall p | p in pages ensures SearchResult(p, CompositeScore(p, query, fetch, linksOf)) in scored {
      var i :| 0 <= i < |pages| && pages[i] == p;
      assert scored[i] == SearchResult(p, CompositeScore(p, query, fetch, linksOf));
    }
    forall x | x in scored ensures x.page in pages && x.score == CompositeScore(x.page, query, fetch, linksOf) {
      var i :| 0 <= i < |scored| && scored[i] == x;
    }
  }
}
