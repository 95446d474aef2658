/**
 * Revision 1.0 of the query service, which scores results itself: each
 * result block is cut to its redirect target, scored by how often the
 * search keyword and 中央公園 occur in its title and snippet, boosted when
 * it is one fixed target page, and the title -> URL pairs are returned in
 * descending score order.
 */
module QueryService1 {
  import opened Wrappers
  import opened Text
  import opened Seqs
  import opened Ranking

  const RedirectPrefix: string := "/url?q="
  const TargetUrl: string := "https://zh.wikipedia.org/zh-tw/%E9%8C%A2%E5%BE%B7%C2%B7%E8%B3%93"
  const RelatedTerm: string := "中央公園"
  const BaseScore: int := 1
  const KeywordWeight: int := 5
  const RelatedWeight: int := 10
  const TargetBonus: int := 1000

  /** One result block: the first link's `href`, its title text and the snippet text ("" when absent). */
  datatype Block = Block(href: string, title: string, snippet: string)

  /** The two maps `search` fills side by side, both keyed by title. */
  datatype Maps = Maps(urls: map<string, string>, scores: map<string, int>)

  /** A row of the returned `LinkedHashMap`. */
  datatype Ranked = Ranked(title: string, url: string, score: int)

  function RankedScore(r: Ranked): real {
    r.score as real
  }

  /**
   * `countOccurrences`: 0 for an empty text or keyword, otherwise the number
   * of pieces `split(keyword, -1)` makes, minus one.
   */
  function CountOccurrences(text: string, keyword: string): nat {
    if text == "" || keyword == "" then 0 else CountMatches(text, keyword)
  }

  /** A keyword is counted at least once exactly when it is non-empty and occurs in a non-empty text. */
  lemma CountOccurrencesPositive(text: string, keyword: string)
    ensures CountOccurrences(text, keyword) > 0 <==> text != "" && keyword != "" && Contains(text, keyword)
  {
    if text != "" && keyword != "" {
      CountMatchesPositive(text, keyword);
    }
  }

  /** The cite URL: every `/url?q=` removed, then `split("&")[0]`; no scheme is added in this revision. */
  function CiteUrl(href: string): (r: Option<string>)
    ensures r.Some? ==> '&' !in r.value
  {
    FirstAmpPiece(ReplaceAll(href, RedirectPrefix, ""))
  }

  /** The score of a block whose cite URL is `url`. */
  function BlockScore(b: Block, keyword: string, url: string): int {
    var text := b.title + b.snippet;
    BaseScore + CountOccurrences(text, keyword) * KeywordWeight
      + CountOccurrences(text, RelatedTerm) * RelatedWeight
      + (if url == TargetUrl then TargetBonus else 0)
  }

  /**
   * Every block scores at least the base score; a keyword hit adds at least
   * 5 and a 中央公園 hit at least 10; the target page scores exactly 1000
   * more than the same text under any other URL.
   */
  lemma BlockScoreProperties(b: Block, keyword: string, other: string)
    requires other != TargetUrl
    ensures BlockScore(b, keyword, other) >= BaseScore
    ensures (Contains(b.title + b.snippet, keyword) && keyword != "" && b.title + b.snippet != "")
              ==> BlockScore(b, keyword, other) >= BaseScore + KeywordWeight
    ensures Contains(b.title + b.snippet, RelatedTerm) ==> BlockScore(b, keyword, other) >= BaseScore + RelatedWeight
    ensures BlockScore(b, keyword, TargetUrl) == BlockScore(b, keyword, other) + TargetBonus
  {
    var text := b.title + b.snippet;
    CountOccurrencesPositive(text, keyword);
    CountOccurrencesPositive(text, RelatedTerm);
    if Contains(text, RelatedTerm) {
      assert text != "" by {
        var i :| 0 <= i <= |text| && IsPrefix(RelatedTerm, text[i..]);
      }
    }
  }

  /** The per-block body of the loop: an `IndexOutOfBoundsException` or an empty title and snippet skip the block. */
  function AddBlock(m: Maps, b: Block, keyword: string): Maps {
    match CiteUrl(b.href)
    case None => m
    case Some(url) =>
      if b.title == "" && b.snippet == "" then m
      else Maps(m.urls[b.title := url], m.scores[b.title := BlockScore(b, keyword, url)])
  }

  /**
   * A block with a cite URL and some title or snippet text is stored as it
   * is: the raw cut URL (no scheme repair, no YouTube filter) and its score,
   * both under its title, `""` included, replacing any earlier entry.
   */
  lemma AddBlockStoresRawCut(m: Maps, b: Block, keyword: string)
    requires CiteUrl(b.href).Some? && (b.title != "" || b.snippet != "")
    ensures AddBlock(m, b, keyword).urls == m.urls[b.title := CiteUrl(b.href).value]
    ensures AddBlock(m, b, keyword).scores == m.scores[b.title := BlockScore(b, keyword, CiteUrl(b.href).value)]
  {
  }

  /** An untitled block with a snippet is stored under the empty title. */
  lemma EmptyTitleWithSnippetStored(m: Maps, href: string, snippet: string, keyword: string)
    requires CiteUrl(href).Some? && snippet != ""
    ensures "" in AddBlock(m, Block(href, "", snippet), keyword).urls
  {
  }

  /** A block whose cut throws, or with neither title nor snippet, changes nothing. */
  lemma AddBlockSkips(m: Maps, b: Block, keyword: string)
    requires CiteUrl(b.href).None? || (b.title == "" && b.snippet == "")
    ensures AddBlock(m, b, keyword) == m
  {
  }

  function CollectBlocks(blocks: seq<Block>, keyword: string, m: Maps): Maps
    decreases |blocks|
  {
    if blocks == [] then m else CollectBlocks(blocks[1..], keyword, AddBlock(m, blocks[0], keyword))
  }

  /** Both maps are written together, so they always have the same titles; a skipped block adds none. */
  lemma {:induction false} CollectKeepsKeysEqual(blocks: seq<Block>, keyword: string, m: Maps)
    requires m.urls.Keys == m.scores.Keys
    ensures CollectBlocks(blocks, keyword, m).urls.Keys == CollectBlocks(blocks, keyword, m).scores.Keys
    ensures m.urls.Keys <= CollectBlocks(blocks, keyword, m).urls.Keys
    ensures forall t :: t in CollectBlocks(blocks, keyword, m).urls && t !in m.urls ==>
              exists i :: 0 <= i < |blocks| && blocks[i].title == t && CiteUrl(blocks[i].href).Some?
    decreases |blocks|
  {
    if blocks != [] {
      var m' := AddBlock(m, blocks[0], keyword);
      CollectKeepsKeysEqual(blocks[1..], keyword, m');
      var r := CollectBlocks(blocks, keyword, m);
      forall t | t in r.urls && t !in m.urls
        ensures exists i :: 0 <= i < |blocks| && blocks[i].title == t && CiteUrl(blocks[i].href).Some?
      {
        if t in m'.urls {
          assert blocks[0].title == t && CiteUrl(blocks[0].href).Some?;
        } else {
          var i :| 0 <= i < |blocks[1..]| && blocks[1..][i].title == t && CiteUrl(blocks[1..][i].href).Some?;
          assert blocks[i + 1] == blocks[1..][i];
        }
      }
    }
  }

  /** Every title stored under the target page carries the target bonus. */
  predicate TargetBoosted(m: Maps) {
    forall t :: t in m.urls && m.urls[t] == TargetUrl ==> t in m.scores && m.scores[t] >= BaseScore + TargetBonus
  }

  /** A score is always stored with the URL it was computed from, so the bonus never lands on another page's title. */
  lemma {:induction false} CollectKeepsTargetBoosted(blocks: seq<Block>, keyword: string, m: Maps)
    requires TargetBoosted(m)
    ensures TargetBoosted(CollectBlocks(blocks, keyword, m))
    decreases |blocks|
  {
    if blocks != [] {
      var b := blocks[0];
      if CiteUrl(b.href).Some? && !(b.title == "" && b.snippet == "") {
        BlockScoreProperties(b, keyword, TargetUrl + "#");
      }
      CollectKeepsTargetBoosted(blocks[1..], keyword, AddBlock(m, b, keyword));
    }
  }

  /**
   * `search`'s parsing: `None` when the page could not be fetched (an
   * `IOException`), otherwise the two maps built from the page's blocks.
   */
  function Collect(content: Option<string>, blocksOf: string -> seq<Block>, keyword: string): (r: Option<Maps>)
    ensures r.Some? <==> content.Some?
  {
    match content
    case None => None
    case Some(page) => Some(CollectBlocks(blocksOf(page), keyword, Maps(map[], map[])))
  }

  /**
   * What a search collects: nothing when the page cannot be fetched;
   * otherwise two maps with the same titles, every title taken from a block
   * with a cite URL, and every title stored with the target URL boosted.
   */
  lemma CollectContract(content: Option<string>, blocksOf: string -> seq<Block>, keyword: string)
    ensures Collect(content, blocksOf, keyword).Some? <==> content.Some?
    ensures content.Some? ==>
              var m := Collect(content, blocksOf, keyword).value;
              var blocks := blocksOf(content.value);
              && m.urls.Keys == m.scores.Keys
              && TargetBoosted(m)
              && forall t :: t in m.urls ==>
                   exists i :: 0 <= i < |blocks| && blocks[i].title == t && CiteUrl(blocks[i].href).Some?
  {
    if content.Some? {
      var empty := Maps(map[], map[]);
      CollectKeepsKeysEqual(blocksOf(content.value), keyword, empty);
      CollectKeepsTargetBoosted(blocksOf(content.value), keyword, empty);
    }
  }

  /** `order` lists every title of `m` exactly once: one iteration order of the `HashMap`. */
  predicate IsIterationOrder(order: seq<string>, m: Maps) {
    NoDup(order) && (forall i :: 0 <= i < |order| ==> order[i] in m.urls && order[i] in m.scores)
      && forall t :: t in m.urls ==> t in order
  }

  /** The entries in iteration order, each with its score. */
  function Entries(order: seq<string>, m: Maps): (r: seq<Ranked>)
    requires forall i :: 0 <= i < |order| ==> order[i] in m.urls && order[i] in m.scores
    ensures |r| == |order|
    ensures forall i :: 0 <= i < |r| ==> r[i] == Ranked(order[i], m.urls[order[i]], m.scores[order[i]])
  {
    seq(|order|, i requires 0 <= i < |order| => Ranked(order[i], m.urls[order[i]], m.scores[order[i]]))
  }

  /**
   * `sortByScore`: the entries, stably sorted on descending score, are
   * inserted into a `LinkedHashMap` in that order.
   */
  function SortByScore(order: seq<string>, m: Maps): seq<Ranked>
    requires IsIterationOrder(order, m)
  {
    SortDesc(Entries(order, m), RankedScore)
  }

  /**
   * The result lists every stored title exactly once with its URL and
   * score, in non-increasing score order, and titles with equal scores
   * keep their iteration order.
   */
  lemma SortByScoreContract(order: seq<string>, m: Maps, s: int)
    requires IsIterationOrder(order, m)
    ensures |SortByScore(order, m)| == |m.urls.Keys|
    ensures forall t :: t in m.urls <==> exists i :: 0 <= i < |SortByScore(order, m)| && SortByScore(order, m)[i].title == t
    ensures forall i :: 0 <= i < |SortByScore(order, m)| ==>
              var e := SortByScore(order, m)[i];
              e.title in m.urls && e.url == m.urls[e.title] && e.title in m.scores && e.score == m.scores[e.title]
    ensures forall i, j :: 0 <= i < j < |SortByScore(order, m)| ==>
              SortByScore(order, m)[i].score >= SortByScore(order, m)[j].score
    ensures WithKey(SortByScore(order, m), RankedScore, s as real) == WithKey(Entries(order, m), RankedScore, s as real)
  {
    var es := Entries(order, m);
    var r := SortByScore(order, m);
    SortDescStable(es, RankedScore, s as real);
    forall i | 0 <= i < |r|
      ensures r[i].title in m.urls && r[i].url == m.urls[r[i].title] && r[i].score == m.scores[r[i].title]
      ensures r[i].title in order
    {
      assert r[i] in multiset(es);
      var k :| 0 <= k < |es| && es[k] == r[i];
    }
    forall t | t in m.urls ensures exists i :: 0 <= i < |r| && r[i].title == t {
      var k :| 0 <= k < |order| && order[k] == t;
      assert es[k] in multiset(r);
      var i :| 0 <= i < |r| && r[i] == es[k];
    }
    TitlesCount(order, m);
  }

  /** The iteration order has as many titles as the map. */
  lemma TitlesCount(order: seq<string>, m: Maps)
    requires IsIterationOrder(order, m)
    ensures |m.urls.Keys| == |order|
  {
    var ks := set i | 0 <= i < |order| :: order[i];
    assert ks == m.urls.Keys;
    DistinctCard(order);
  }

  lemma {:induction false} DistinctCard(s: seq<string>)
    requires NoDup(s)
    ensures |set i | 0 <= i < |s| :: s[i]| == |s|
    decreases |s|
  {
    if s != [] {
      var last := s[|s| - 1];
      var init := s[..|s| - 1];
      assert NoDup(init);
      DistinctCard(init);
      var a := set i | 0 <= i < |init| :: init[i];
      assert (set i | 0 <= i < |s| :: s[i]) == a + {last} by {
        forall i | 0 <= i < |s| - 1 ensures s[i] == init[i] { }
      }
      assert last !in a;
    }
  }
}
