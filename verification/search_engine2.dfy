/**
 * Revision 2.0 of the search engine: the title is scored with positive and
 * negative rules, a Wikipedia URL earns a fixed bonus, the page's own
 * content (fetched through `fetch`, `None` on `IOException`) adds an
 * undamped sub-page score, and the sorted results are cut to 20.
 */
module SearchEngine2 {
  import opened Wrappers
  import opened Text
  import opened Seqs
  import opened Ranking
  import opened Pages
  import opened Keywords

  const SixFriendsWeight: real := 3.0
  const ActorWeight: real := 1.0
  const FictionalCharacterWeight: real := 1.5
  const UsaWeight: real := 2.0
  const NewYorkWeight: real := 2.0
  const HollywoodWeight: real := 1.5
  const EmmyAwardWeight: real := 1.0
  const ApartmentWeight: real := 2.0
  const CentralParkWeight: real := 2.0
  const SitcomWeight: real := 2.5
  const FriendWeight: real := 1.0
  const OldFriendWeight: real := 1.0
  const SeasonWeight: real := 1.0
  const MovieWeight: real := -3.0
  const ModelWeight: real := -3.0
  const ItalyWeight: real := -1.0
  const InstagramWeight: real := -3.0
  const FacebookWeight: real := -3.0
  const UniversityWeight: real := -1.0
  const AnimationWeight: real := -2.0
  const GameWeight: real := -2.0
  const SportsWeight: real := -1.0
  const WikipediaBonus: real := 5.0
  const MaxResults: nat := 20

  /** The series-name rule that opens `calculateScore`. */
  const SeriesRules: seq<Rule> := [Rule(["six friends", "六人行", "lao you ji"], SixFriendsWeight)]

  /** The six character names, each with its own weight. */
  const CharacterRules: seq<Rule> := [
    Rule(["rachel"], 2.5), Rule(["monica"], 2.5), Rule(["chandler"], 2.0),
    Rule(["joey"], 2.0), Rule(["phoebe"], 2.0), Rule(["ross"], 2.0)
  ]

  /** The remaining title rules, positive then negative, in source order. */
  const OtherRules: seq<Rule> := [
    Rule(["central perk", "中央咖啡館"], CentralParkWeight),
    Rule(["emmy", "艾美獎"], EmmyAwardWeight),
    Rule(["actor", "演員"], ActorWeight),
    Rule(["fictional character", "虛構角色"], FictionalCharacterWeight),
    Rule(["usa", "美國"], UsaWeight),
    Rule(["new york", "紐約"], NewYorkWeight),
    Rule(["hollywood", "好萊塢"], HollywoodWeight),
    Rule(["apartment", "公寓"], ApartmentWeight),
    Rule(["sitcom", "情境喜劇"], SitcomWeight),
    Rule(["friend", "朋友", "老友"], FriendWeight + OldFriendWeight),
    Rule(["season", "季"], SeasonWeight),
    Rule(["movie", "電影"], MovieWeight),
    Rule(["model", "模特兒"], ModelWeight),
    Rule(["italy", "義大利"], ItalyWeight),
    Rule(["instagram"], InstagramWeight),
    Rule(["facebook"], FacebookWeight),
    Rule(["university", "大學"], UniversityWeight),
    Rule(["animation", "動畫"], AnimationWeight),
    Rule(["game", "遊戲"], GameWeight),
    Rule(["sport", "運動"], SportsWeight)
  ]

  /** All title rules as one flat table. */
  const TitleRules: seq<Rule> := SeriesRules + CharacterRules + OtherRules

  /** The positive rules of `calculateSubpageScore`, each on a single trigger. */
  const SubpageBonusRules: seq<Rule> := [
    Rule(["六人行"], 3.0), Rule(["老友記"], 3.0), Rule(["演員"], 1.0), Rule(["虛構角色"], 1.5),
    Rule(["美國"], 2.0), Rule(["紐約"], 2.0), Rule(["好萊塢"], 1.5), Rule(["艾美獎"], 1.0),
    Rule(["公寓"], 2.0), Rule(["中央公園"], 2.0), Rule(["情境喜劇"], 2.5), Rule(["朋友"], 1.0),
    Rule(["老友"], 1.0), Rule(["季"], 1.0)
  ]

  /** The negative rules of `calculateSubpageScore`. */
  const SubpagePenaltyRules: seq<Rule> := [
    Rule(["電影"], -3.0), Rule(["模特兒"], -3.0), Rule(["義大利"], -1.0), Rule(["instagram"], -3.0),
    Rule(["facebook"], -3.0), Rule(["大學"], -1.0), Rule(["動畫"], -2.0), Rule(["遊戲"], -2.0),
    Rule(["運動"], -1.0)
  ]

  const SubpageRules: seq<Rule> := SubpageBonusRules + SubpagePenaltyRules

  /** The character block as written: the six weights are added only inside an outer any-name test. */
  function GuardedCharacterScore(lower: string): real {
    if Fires(Rule(["rachel", "monica", "chandler", "joey", "phoebe", "ross"], 0.0), lower)
    then TableScore(CharacterRules, lower)
    else 0.0
  }

  /** The outer test changes nothing: each name adds its own weight independently. */
  lemma GuardIsRedundant(lower: string)
    ensures GuardedCharacterScore(lower) == TableScore(CharacterRules, lower)
  {
    var guard := Rule(["rachel", "monica", "chandler", "joey", "phoebe", "ross"], 0.0);
    if !Fires(guard, lower) {
      forall k | 0 <= k < |CharacterRules| ensures !Fires(CharacterRules[k], lower) {
        assert CharacterRules[k].triggers == [guard.triggers[k]];
      }
      NoRuleFires(CharacterRules, lower);
    }
  }

  /** The rule part of `calculateScore` on the lower-cased title, as written. */
  function TitleRuleScore(lower: string): real {
    TableScore(SeriesRules, lower) + GuardedCharacterScore(lower) + TableScore(OtherRules, lower)
  }

  lemma TitleRuleScoreIsTable(lower: string)
    ensures TitleRuleScore(lower) == TableScore(TitleRules, lower)
  {
    GuardIsRedundant(lower);
    TableScoreAppend(SeriesRules + CharacterRules, OtherRules, lower);
    TableScoreAppend(SeriesRules, CharacterRules, lower);
  }

  /** A title with `friend`, 朋友 or 老友 gains exactly 2.0 from that rule, however many of them occur. */
  lemma FriendRuleGainsTwo(lower: string)
    requires Contains(lower, "friend") || Contains(lower, "朋友") || Contains(lower, "老友")
    ensures TableScore(TitleRules, lower)
         == TableScore(TitleRules[..16] + TitleRules[17..], lower) + 2.0
  {
    var r := TitleRules[16];
    assert r == Rule(["friend", "朋友", "老友"], FriendWeight + OldFriendWeight);
    assert Fires(r, lower) by {
      if Contains(lower, "friend") {
        assert Contains(lower, r.triggers[0]);
      } else if Contains(lower, "朋友") {
        assert Contains(lower, r.triggers[1]);
      } else {
        assert Contains(lower, r.triggers[2]);
      }
    }
    RuleAddsOnce(TitleRules, 16, lower);
  }

  /** `calculateSubpageScore`. */
  function SubpageScore(content: string): real {
    TableScore(SubpageRules, ToLower(content))
  }

  /** The sub-page score lies between the sum of the negative weights and the sum of the positive ones. */
  lemma SubpageScoreBounds(content: string)
    ensures -19.0 <= SubpageScore(content) <= 24.5
  {
    TableScoreBounds(SubpageRules, ToLower(content));
    SubpageSums();
  }

  lemma SubpageSums()
    ensures PositiveSum(SubpageRules) == 24.5
    ensures NegativeSum(SubpageRules) == -19.0
  {
    SignsOfSubpageRules();
    SplitSums(SubpageBonusRules, SubpagePenaltyRules);
    BonusWeights();
    PenaltyWeights();
  }

  lemma SignsOfSubpageRules()
    ensures forall k :: 0 <= k < |SubpageBonusRules| ==> SubpageBonusRules[k].weight > 0.0
    ensures forall k :: 0 <= k < |SubpagePenaltyRules| ==> SubpagePenaltyRules[k].weight < 0.0
  {
  }

  /** A table of positive rules followed by negative ones: each sum is the weight sum of its part. */
  lemma SplitSums(bonus: seq<Rule>, penalty: seq<Rule>)
    requires forall k :: 0 <= k < |bonus| ==> bonus[k].weight > 0.0
    requires forall k :: 0 <= k < |penalty| ==> penalty[k].weight < 0.0
    ensures PositiveSum(bonus + penalty) == WeightSum(bonus)
    ensures NegativeSum(bonus + penalty) == WeightSum(penalty)
  {
    SumsSplit(bonus, penalty);
    PositivePart(bonus);
    NegativePart(penalty);
  }

  lemma BonusWeights()
    ensures WeightSum(SubpageBonusRules) == 24.5
  {
  }

  lemma PenaltyWeights()
    ensures WeightSum(SubpagePenaltyRules) == -19.0
  {
  }

  lemma {:induction false} SumsSplit(a: seq<Rule>, b: seq<Rule>)
    ensures PositiveSum(a + b) == PositiveSum(a) + PositiveSum(b)
    ensures NegativeSum(a + b) == NegativeSum(a) + NegativeSum(b)
    decreases |a|
  {
    if a == [] {
      assert a + b == b;
    } else {
      SumsSplit(a[1..], b);
      assert (a + b)[1..] == a[1..] + b;
    }
  }

  /** The sum of all weights. */
  function WeightSum(rules: seq<Rule>): real {
    if rules == [] then 0.0 else rules[0].weight + WeightSum(rules[1..])
  }

  lemma {:induction false} PositivePart(rules: seq<Rule>)
    requires forall k :: 0 <= k < |rules| ==> rules[k].weight > 0.0
    ensures PositiveSum(rules) == WeightSum(rules) && NegativeSum(rules) == 0.0
    decreases |rules|
  {
    if rules != [] {
      PositivePart(rules[1..]);
    }
  }

  lemma {:induction false} NegativePart(rules: seq<Rule>)
    requires forall k :: 0 <= k < |rules| ==> rules[k].weight < 0.0
    ensures NegativeSum(rules) == WeightSum(rules) && PositiveSum(rules) == 0.0
    decreases |rules|
  {
    if rules != [] {
      NegativePart(rules[1..]);
    }
  }

  /** `calculateScore`: title rules, query tokens, Wikipedia bonus, then the page content when it could be fetched. */
  function Score(page: WebPage, query: string, content: Option<string>): real {
    var lower := ToLower(page.title);
    TitleRuleScore(lower)
      + QueryBonus(Tokens(ToLower(query)), lower)
      + (if IsWikiUrl(page.url) then WikipediaBonus else 0.0)
      + (match content
         case None => 0.0
         case Some(c) => SubpageScore(c))
  }

  /** A Wikipedia URL is worth exactly 5.0 more than any other URL, whatever the title. */
  lemma WikipediaBonusExact(url: string, other: string, title: string, query: string, content: Option<string>)
    requires IsWikiUrl(url) && !IsWikiUrl(other)
    ensures Score(WebPage(url, title), query, content) == Score(WebPage(other, title), query, content) + 5.0
  {
  }

  /**
   * A failed content fetch leaves the title part alone: the score is what a
   * fetched page would give minus that page's sub-page score.
   */
  lemma FailedFetchKeepsTitlePart(page: WebPage, query: string, content: string)
    ensures Score(page, query, None) == Score(page, query, Some(content)) - SubpageScore(content)
    ensures -19.0 <= Score(page, query, Some(content)) - Score(page, query, None) <= 24.5
  {
    SubpageScoreBounds(content);
  }

  function ScorePages(pages: seq<WebPage>, query: string, fetch: string -> Option<string>): (r: seq<SearchResult>)
    ensures |r| == |pages|
    ensures forall i :: 0 <= i < |r| ==> r[i] == SearchResult(pages[i], Score(pages[i], query, fetch(pages[i].url)))
  {
    seq(|pages|, i requires 0 <= i < |pages| => SearchResult(pages[i], Score(pages[i], query, fetch(pages[i].url))))
  }

  /** Every page is scored exactly once, with its own fetch, and every scored entry is a page with its own score. */
  lemma ScoredMembers(pages: seq<WebPage>, query: string, fetch: string -> Option<string>)
    ensures forall p :: p in pages ==> SearchResult(p, Score(p, query, fetch(p.url))) in ScorePages(pages, query, fetch)
    ensures forall x :: x in ScorePages(pages, query, fetch) ==> x.page in pages && x.score == Score(x.page, query, fetch(x.page.url))
    ensures NoDup(pages) ==> NoDup(ScorePages(pages, query, fetch))
  {
    var scored := ScorePages(pages, query, fetch);
    forall p | p in pages ensures SearchResult(p, Score(p, query, fetch(p.url))) in scored {
      var i :| 0 <= i < |pages| && pages[i] == p;
      assert scored[i] == SearchResult(p, Score(p, query, fetch(p.url)));
    }
    forall x | x in scored ensures x.page in pages && x.score == Score(x.page, query, fetch(x.page.url)) {
      var i :| 0 <= i < |scored| && scored[i] == x;
    }
  }

  /** The "manually add a Wikipedia link" loop: the first Wikipedia page, scored again. */
  function ManualWiki(pages: seq<WebPage>, query: string, fetch: string -> Option<string>): seq<SearchResult> {
    if pages == [] then []
    else if IsWikiUrl(pages[0].url) then [SearchResult(pages[0], Score(pages[0], query, fetch(pages[0].url)))]
    else ManualWiki(pages[1..], query, fetch)
  }

  /** `searchAndSort`: sort, the Wikipedia fallback with its second sort, then the first 20. */
  function SearchAndSort(pages: seq<WebPage>, query: string, fetch: string -> Option<string>): seq<SearchResult> {
    var results := SortDesc(ScorePages(pages, query, fetch), ScoreOf);
    var hasWikipedia := exists i :: 0 <= i < |results| && IsWiki(results[i]);
    var results' := if !hasWikipedia then SortDesc(results + ManualWiki(pages, query, fetch), ScoreOf) else results;
    Take(results', MaxResults)
  }

  lemma {:induction false} ManualWikiEmpty(pages: seq<WebPage>, query: string, fetch: string -> Option<string>)
    requires forall i :: 0 <= i < |pages| ==> !IsWikiUrl(pages[i].url)
    ensures ManualWiki(pages, query, fetch) == []
    decreases |pages|
  {
    if pages != [] {
      ManualWikiEmpty(pages[1..], query, fetch);
    }
  }

  /**
   * The fallback never adds anything: every page already has a result, so
   * when no result is a Wikipedia link no page is one either, and sorting
   * the sorted list again changes nothing.
   */
  lemma FallbackAddsNothing(pages: seq<WebPage>, query: string, fetch: string -> Option<string>)
    ensures SearchAndSort(pages, query, fetch) == Take(SortDesc(ScorePages(pages, query, fetch), ScoreOf), MaxResults)
  {
    var scored := ScorePages(pages, query, fetch);
    var results := SortDesc(scored, ScoreOf);
    if !exists i :: 0 <= i < |results| && IsWiki(results[i]) {
      forall i | 0 <= i < |pages| ensures !IsWikiUrl(pages[i].url) {
        assert scored[i] in multiset(results);
        var j :| 0 <= j < |results| && results[j] == scored[i];
      }
      ManualWikiEmpty(pages, query, fetch);
      assert results + [] == results;
      SortDescOfSorted(results, ScoreOf);
    }
  }

  /**
   * The output has min(pages, 20) results in non-increasing score order, is
   * the head of the descending ranking, and holds every page whose result
   * ranks within the first 20.
   */
  lemma SearchAndSortContract(pages: seq<WebPage>, query: string, fetch: string -> Option<string>)
    ensures |SearchAndSort(pages, query, fetch)| == if |pages| <= 20 then |pages| else 20
    ensures SortedDesc(SearchAndSort(pages, query, fetch), ScoreOf)
    ensures forall x :: x in SearchAndSort(pages, query, fetch) ==>
              x.page in pages && x.score == Score(x.page, query, fetch(x.page.url))
    ensures |pages| <= 20 ==>
              multiset(SearchAndSort(pages, query, fetch)) == multiset(ScorePages(pages, query, fetch))
  {
    var scored := ScorePages(pages, query, fetch);
    var sorted := SortDesc(scored, ScoreOf);
    FallbackAddsNothing(pages, query, fetch);
    var r := Take(sorted, MaxResults);
    PrefixSubseq(sorted, |r|);
    SubseqSortedDesc(r, sorted, ScoreOf);
    forall x | x in r ensures x.page in pages && x.score == Score(x.page, query, fetch(x.page.url)) {
      assert x in multiset(sorted);
      var i :| 0 <= i < |scored| && scored[i] == x;
    }
  }
}
