/**
 * Revision 3.0 of the search engine: the title alone is scored, results are
 * sorted by descending score, and the selection is written inline in
 * `searchAndSort` (top 15, at most 3 Wikipedia links, the best of them
 * first) with a backfill loop shaped differently from revision 4.0's.
 */
module SearchEngine3 {
  import opened Text
  import opened Seqs
  import opened Ranking
  import opened Pages
  import opened Keywords
  import opened Selection

  const FriendsWeight: real := 3.0
  const RachelWeight: real := 2.5
  const MonicaWeight: real := 2.5
  const ChandlerWeight: real := 2.0
  const JoeyWeight: real := 2.0
  const PhoebeWeight: real := 2.0
  const RossWeight: real := 2.0
  const CentralPerkWeight: real := 2.0
  const LiuRenXingWeight: real := 1.5
  const EricAscelineWeight: real := 2.5
  const DavidCraneWeight: real := 2.5

  const TotalDesired: nat := 15
  const MaxWiki: nat := 3

  /** The rules of `calculateScore`, in source order; the producer's name has two spellings. */
  const Rules: seq<Rule> := [
    Rule(["friends", "six friends", "六人行"], FriendsWeight),
    Rule(["rachel"], RachelWeight),
    Rule(["monica"], MonicaWeight),
    Rule(["chandler"], ChandlerWeight),
    Rule(["joey"], JoeyWeight),
    Rule(["phoebe"], PhoebeWeight),
    Rule(["ross"], RossWeight),
    Rule(["central perk", "中央咖啡館"], CentralPerkWeight),
    Rule(["liu renxing", "六人行"], LiuRenXingWeight),
    Rule(["eric ascieline", "eric ascièline"], EricAscelineWeight),
    Rule(["david crane"], DavidCraneWeight)
  ]

  /** `calculateScore`: the rule weights and query-token bonus on the lower-cased title. */
  function TitleScore(page: WebPage, query: string): (r: real)
    ensures r >= 0.0
  {
    assert AllPositive(Rules);
    TextScoreNonNegative(Rules, page.title, query);
    Keywords.TextScore(Rules, page.title, query)
  }

  /**
   * Both spellings of the producer's name trigger one rule, so a title with
   * either or both gains exactly 2.5 from it.
   */
  lemma EricSpellingsShareOneWeight(page: WebPage, query: string)
    requires Contains(ToLower(page.title), "eric ascieline") || Contains(ToLower(page.title), "eric ascièline")
    ensures var lower := ToLower(page.title);
            TitleScore(page, query)
              == TableScore(Rules[..9] + Rules[10..], lower) + EricAscelineWeight
                 + QueryBonus(Tokens(ToLower(query)), lower)
  {
    var lower := ToLower(page.title);
    assert Fires(Rules[9], lower) by {
      if Contains(lower, "eric ascieline") {
        assert Contains(lower, Rules[9].triggers[0]);
      } else {
        assert Contains(lower, Rules[9].triggers[1]);
      }
    }
    RuleAddsOnce(Rules, 9, lower);
  }

  function ScorePages(pages: seq<WebPage>, query: string): (r: seq<SearchResult>)
    ensures |r| == |pages|
    ensures forall i :: 0 <= i < |r| ==> r[i] == SearchResult(pages[i], TitleScore(pages[i], query))
  {
    seq(|pages|, i requires 0 <= i < |pages| => SearchResult(pages[i], TitleScore(pages[i], query)))
  }

  /**
   * The 3.0 backfill loop: add a result that is neither Wikipedia nor
   * already present, and stop right after the list reaches capacity.
   */
  function Backfill3(rest: seq<SearchResult>, acc: seq<SearchResult>, cap: nat): seq<SearchResult>
    decreases |rest|
  {
    if rest == [] then acc
    else if !IsWiki(rest[0]) && rest[0] !in acc then
      if |acc + [rest[0]]| >= cap then acc + [rest[0]]
      else Backfill3(rest[1..], acc + [rest[0]], cap)
    else Backfill3(rest[1..], acc, cap)
  }

  lemma {:induction false} Backfill3NoOp(rest: seq<SearchResult>, acc: seq<SearchResult>, cap: nat)
    requires forall x :: x in rest && !IsWiki(x) ==> x in acc
    ensures Backfill3(rest, acc, cap) == acc
    decreases |rest|
  {
    if rest != [] {
      assert forall x :: x in rest[1..] ==> x in rest;
      Backfill3NoOp(rest[1..], acc, cap);
    }
  }

  /** Steps 1-3 of `searchAndSort` on the sorted results. */
  function SelectInline(sorted: seq<SearchResult>): seq<SearchResult> {
    var rest := Remaining(sorted);
    var filled := Fill(rest, Priority(sorted), |Priority(sorted)|, TotalDesired, MaxWiki);
    if |filled| < TotalDesired then Backfill3(rest, filled, TotalDesired) else filled
  }

  /**
   * The inline selection adds nothing in its backfill step and so picks
   * exactly what revision 4.0's `pickTop15WithWikiConstraint` picks.
   */
  lemma SelectInlineIsPickTop(sorted: seq<SearchResult>)
    ensures SelectInline(sorted) == PickTop(sorted, TotalDesired, MaxWiki)
  {
    var rest := Remaining(sorted);
    var filled := Fill(rest, Priority(sorted), |Priority(sorted)|, TotalDesired, MaxWiki);
    BackfillAddsNothing(sorted, TotalDesired, MaxWiki);
    FillCoversNonWiki(sorted, TotalDesired, MaxWiki);
    if |filled| < TotalDesired {
      Backfill3NoOp(rest, filled, TotalDesired);
    }
  }

  /** `searchAndSort`. */
  function SearchAndSort(pages: seq<WebPage>, query: string): seq<SearchResult> {
    SelectInline(SortDesc(ScorePages(pages, query), ScoreOf))
  }

  /**
   * At most 15 results, at most 3 Wikipedia links, each a scored input
   * page; the best-scored Wikipedia result first when there is one, and the
   * rest a subsequence of the descending order.
   */
  lemma SearchAndSortContract(pages: seq<WebPage>, query: string)
    ensures |SearchAndSort(pages, query)| <= 15
    ensures WikiCount(SearchAndSort(pages, query)) <= 3
    ensures forall x :: x in SearchAndSort(pages, query) ==> x.page in pages && x.score == TitleScore(x.page, query)
    ensures NoDup(pages) ==> NoDup(SearchAndSort(pages, query))
    ensures (exists p :: p in pages && IsWikiUrl(p.url)) ==>
              var r := SearchAndSort(pages, query);
              && r != [] && IsWiki(r[0])
              && (forall p :: p in pages && IsWikiUrl(p.url) ==> r[0].score >= TitleScore(p, query))
              && SortedDesc(r[1..], ScoreOf)
    ensures (forall p :: p in pages ==> !IsWikiUrl(p.url)) ==> SortedDesc(SearchAndSort(pages, query), ScoreOf)
  {
    var scored := ScorePages(pages, query);
    SelectInlineIsPickTop(SortDesc(scored, ScoreOf));
    RankAndPickContract(scored, TotalDesired, MaxWiki);
    ScoredMembers(pages, query);
  }

  /** Every page is scored exactly once, and every scored entry is a page with its own score. */
  lemma ScoredMembers(pages: seq<WebPage>, query: string)
    ensures forall p :: p in pages ==> SearchResult(p, TitleScore(p, query)) in ScorePages(pages, query)
    ensures forall x :: x in ScorePages(pages, query) ==> x.page in pages && x.score == TitleScore(x.page, query)
  {
    var scored := ScorePages(pages, query);
    forall p | p in pages ensures SearchResult(p, TitleScore(p, query)) in scored {
      var i :| 0 <= i < |pages| && pages[i] == p;
      assert scored[i] == SearchResult(p, TitleScore(p, query));
    }
    forall x | x in scored ensures x.page in pages && x.score == TitleScore(x.page, query) {
      var i :| 0 <= i < |scored| && scored[i] == x;
    }
  }
}
