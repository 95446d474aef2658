/**
 * The `/api/search` controllers of revisions 4.0 and 5.0: turn the query
 * service's title -> URL map into pages (5.0 first repairs doubly encoded
 * `%` and drops URLs that do not parse), rank them, answer with an empty
 * map when no result scores above a relevance floor, and otherwise with the
 * ranked titles and URLs in order.
 */
module Controllers {
  import opened Wrappers
  import opened Text
  import opened Seqs
  import opened Pages
  import SearchEngine4

  const RelevanceFloor4: real := 5.0
  const RelevanceFloor5: real := 3.0
  const EncodedPercent: string := "%25"

  /** The query service's map, as its entries in iteration order: `(title, url)`. */
  type Entries = seq<(string, string)>

  /** No title occurs twice, as in any map's entry set. */
  predicate DistinctKeys(es: Entries) {
    forall i, j :: 0 <= i < j < |es| ==> es[i].0 != es[j].0
  }

  // ---------------------------------------------------------------- URL repair

  /** `fixDoubleEncoding`: when `%25` occurs, every occurrence becomes `%` in one left-to-right pass. */
  function FixDoubleEncoding(url: string): string {
    if Contains(url, EncodedPercent) then ReplaceAll(url, EncodedPercent, "%") else url
  }

  /** Percent-encoding of `%` alone: the encoding the repair undoes. */
  function EncodePercent(s: string): string {
    ReplaceAll(s, "%", EncodedPercent)
  }

  /** The guard only saves work: the repair is always the plain replacement. */
  lemma FixIsReplaceAll(url: string)
    ensures FixDoubleEncoding(url) == ReplaceAll(url, EncodedPercent, "%")
  {
    if !Contains(url, EncodedPercent) {
      ReplaceAllAbsent(url, EncodedPercent, "%");
    }
  }

  /** Round trip: repairing a once-more-encoded URL gives the URL back. */
  lemma {:induction false} FixUndoesEncoding(s: string)
    ensures FixDoubleEncoding(EncodePercent(s)) == s
    decreases |s|
  {
    FixIsReplaceAll(EncodePercent(s));
    FixUndoesEncodingPass(s);
  }

  lemma {:induction false} FixUndoesEncodingPass(s: string)
    ensures ReplaceAll(EncodePercent(s), EncodedPercent, "%") == s
    decreases |s|
  {
    if s != [] {
      FixUndoesEncodingPass(s[1..]);
      var tail := EncodePercent(s[1..]);
      if s[0] == '%' {
        assert IsPrefix("%", s);
        assert EncodePercent(s) == EncodedPercent + tail;
        var e := EncodedPercent + tail;
        assert IsPrefix(EncodedPercent, e);
        assert e[|EncodedPercent|..] == tail;
        assert [s[0]] + s[1..] == s;
      } else {
        assert !IsPrefix("%", s);
        assert EncodePercent(s) == [s[0]] + tail;
        var e := [s[0]] + tail;
        assert !IsPrefix(EncodedPercent, e);
        assert e[1..] == tail;
        assert [s[0]] + s[1..] == s;
      }
    }
  }

  /**
   * Each repaired occurrence shortens the URL by two characters, and a URL
   * without `%25` is left alone.
   */
  lemma FixDoubleEncodingLength(url: string)
    ensures |FixDoubleEncoding(url)| == |url| - 2 * CountMatches(url, EncodedPercent)
    ensures !Contains(url, EncodedPercent) ==> FixDoubleEncoding(url) == url
  {
    if Contains(url, EncodedPercent) {
      var c: int := CountMatches(url, EncodedPercent);
      ReplaceAllLength(url, EncodedPercent, "%");
      assert |ReplaceAll(url, EncodedPercent, "%")| == |url| + (1 - 3) * c;
    } else {
      CountMatchesPositive(url, EncodedPercent);
    }
  }

  /** One pass only: a triply encoded `%` still shows `%25` after the repair. */
  lemma FixIsSinglePass()
    ensures FixDoubleEncoding("%2525") == "%25"
    ensures Contains(FixDoubleEncoding("%2525"), EncodedPercent)
  {
    var s := "%2525";
    assert IsPrefix(EncodedPercent, s);
    PrefixContained(EncodedPercent, s);
    assert s[3..] == "25";
    assert !IsPrefix(EncodedPercent, "25") && !IsPrefix(EncodedPercent, "5");
    assert "25"[1..] == "5" && "5"[1..] == [];
    assert ReplaceAll("25", EncodedPercent, "%") == "25";
    PrefixContained(EncodedPercent, "%25");
  }

  // ---------------------------------------------------------------- pages

  /** The 4.0 loop: every entry becomes a page, title and URL swapped into `WebPage(url, title)`. */
  function BuildPages4(es: Entries): (r: seq<WebPage>)
    ensures |r| == |es|
    ensures forall i :: 0 <= i < |r| ==> r[i] == WebPage(es[i].1, es[i].0)
  {
    seq(|es|, i requires 0 <= i < |es| => WebPage(es[i].1, es[i].0))
  }

  /**
   * The 4.0 pages are the map's entries and nothing else, each with its
   * title and URL; a map's distinct keys give pages with distinct titles.
   */
  lemma BuildPages4Entries(es: Entries)
    ensures forall p :: p in BuildPages4(es) <==> (p.title, p.url) in es
    ensures DistinctKeys(es) ==> NoDup(BuildPages4(es))
    ensures DistinctKeys(es) ==>
              forall i, j :: 0 <= i < j < |BuildPages4(es)| ==> BuildPages4(es)[i].title != BuildPages4(es)[j].title
  {
    var r := BuildPages4(es);
    forall p ensures p in r <==> (p.title, p.url) in es {
      if p in r {
        var i :| 0 <= i < |r| && r[i] == p;
        assert es[i] == (p.title, p.url);
      }
      if (p.title, p.url) in es {
        var i :| 0 <= i < |es| && es[i] == (p.title, p.url);
        assert r[i] == p;
      }
    }
  }

  /** The 5.0 loop: the URL is repaired, and entries whose repaired URL `isValid` rejects are skipped. */
  function BuildPages5(es: Entries, isValid: string -> bool): seq<WebPage>
    decreases |es|
  {
    if es == [] then []
    else
      var fixed := FixDoubleEncoding(es[0].1);
      (if isValid(fixed) then [WebPage(fixed, es[0].0)] else []) + BuildPages5(es[1..], isValid)
  }

  /** A 5.0 page is exactly a valid repaired entry. */
  lemma {:induction false} BuildPages5Members(es: Entries, isValid: string -> bool, p: WebPage)
    ensures p in BuildPages5(es, isValid) <==>
              exists i :: 0 <= i < |es| && isValid(FixDoubleEncoding(es[i].1))
                && p == WebPage(FixDoubleEncoding(es[i].1), es[i].0)
    decreases |es|
  {
    if es != [] {
      BuildPages5Members(es[1..], isValid, p);
      var tail := es[1..];
      if exists i :: 0 <= i < |tail| && isValid(FixDoubleEncoding(tail[i].1))
           && p == WebPage(FixDoubleEncoding(tail[i].1), tail[i].0) {
        var i :| 0 <= i < |tail| && isValid(FixDoubleEncoding(tail[i].1))
                 && p == WebPage(FixDoubleEncoding(tail[i].1), tail[i].0);
        assert es[i + 1] == tail[i];
      }
      if exists i :: 0 <= i < |es| && isValid(FixDoubleEncoding(es[i].1))
           && p == WebPage(FixDoubleEncoding(es[i].1), es[i].0) {
        var i :| 0 <= i < |es| && isValid(FixDoubleEncoding(es[i].1))
                 && p == WebPage(FixDoubleEncoding(es[i].1), es[i].0);
        if i > 0 {
          assert es[i] == tail[i - 1];
        }
      }
    }
  }

  /** No entry is lost without reason: with every URL valid, 5.0 builds as many pages as 4.0. */
  lemma {:induction false} BuildPages5AllValid(es: Entries, isValid: string -> bool)
    requires forall i :: 0 <= i < |es| ==> isValid(FixDoubleEncoding(es[i].1))
    ensures |BuildPages5(es, isValid)| == |es|
    decreases |es|
  {
    if es != [] {
      BuildPages5AllValid(es[1..], isValid);
    }
  }

  // ---------------------------------------------------------------- gate and response

  /** The gate loop: true unless some result scores strictly above `floor` (it stops at the first one). */
  function AllAtMost(rs: seq<SearchResult>, floor: real): (r: bool)
    ensures r <==> forall i :: 0 <= i < |rs| ==> rs[i].score <= floor
    decreases |rs|
  {
    if rs == [] then true
    else if rs[0].score > floor then false
    else
      var rest := AllAtMost(rs[1..], floor);
      assert rest <==> forall i :: 1 <= i < |rs| ==> rs[i].score <= floor by {
        forall i | 1 <= i < |rs| ensures rs[i] == rs[1..][i - 1] { }
      }
      rest
  }

  /** A `LinkedHashMap` as its entries in insertion order. */
  function Keys(m: Entries): seq<string> {
    seq(|m|, i requires 0 <= i < |m| => m[i].0)
  }

  /** `put`: an existing key keeps its position and takes the new value; a new key goes last. */
  function PutLinked(m: Entries, k: string, v: string): (r: Entries)
    ensures |r| == if k in Keys(m) then |m| else |m| + 1
    decreases |m|
  {
    if m == [] then [(k, v)]
    else if m[0].0 == k then
      assert Keys(m)[0] == k;
      [(k, v)] + m[1..]
    else
      assert Keys(m[1..]) == Keys(m)[1..];
      [m[0]] + PutLinked(m[1..], k, v)
  }

  lemma KeysCons(e: (string, string), m: Entries)
    ensures Keys([e] + m) == [e.0] + Keys(m)
  {
  }

  /** After `put` the keys are the old keys and `k`. */
  lemma {:induction false} PutLinkedKeys(m: Entries, k: string, v: string)
    ensures forall x :: x in Keys(PutLinked(m, k, v)) <==> x == k || x in Keys(m)
    decreases |m|
  {
    if m == [] {
      assert Keys([(k, v)]) == [k];
    } else {
      KeysCons(m[0], m[1..]);
      assert [m[0]] + m[1..] == m;
      if m[0].0 == k {
        KeysCons((k, v), m[1..]);
      } else {
        PutLinkedKeys(m[1..], k, v);
        assert PutLinked(m, k, v) == [m[0]] + PutLinked(m[1..], k, v);
        KeysCons(m[0], PutLinked(m[1..], k, v));
      }
    }
  }

  /** `put` keeps the keys of a `LinkedHashMap` distinct. */
  lemma {:induction false} PutLinkedDistinct(m: Entries, k: string, v: string)
    requires DistinctKeys(m)
    ensures DistinctKeys(PutLinked(m, k, v))
    decreases |m|
  {
    if m != [] {
      var tail := m[1..];
      assert DistinctKeys(tail) by {
        forall i, j | 0 <= i < j < |tail| ensures tail[i].0 != tail[j].0 {
          assert tail[i] == m[i + 1] && tail[j] == m[j + 1];
        }
      }
      if m[0].0 != k {
        PutLinkedDistinct(tail, k, v);
        var p := PutLinked(tail, k, v);
        PutLinkedKeys(tail, k, v);
        assert m[0].0 !in Keys(tail) by {
          forall q | 0 <= q < |tail| ensures Keys(tail)[q] != m[0].0 {
            assert tail[q] == m[q + 1];
          }
        }
        var r := [m[0]] + p;
        forall i, j | 0 <= i < j < |r| ensures r[i].0 != r[j].0 {
          if i == 0 {
            assert r[j] == p[j - 1];
            assert Keys(p)[j - 1] == r[j].0;
          } else {
            assert r[i] == p[i - 1] && r[j] == p[j - 1];
          }
        }
      }
    }
  }

  /** `put` of a new key appends it. */
  lemma {:induction false} PutLinkedAppends(m: Entries, k: string, v: string)
    requires k !in Keys(m)
    ensures PutLinked(m, k, v) == m + [(k, v)]
    decreases |m|
  {
    if m != [] {
      assert Keys(m)[0] == m[0].0;
      assert Keys(m[1..]) == Keys(m)[1..];
      PutLinkedAppends(m[1..], k, v);
      assert [m[0]] + (m[1..] + [(k, v)]) == m + [(k, v)];
    }
  }

  /** The response loop: every ranked result's title and URL put in order. */
  function ToResponse(rs: seq<SearchResult>): Entries
    decreases |rs|
  {
    if rs == [] then []
    else
      var last := rs[|rs| - 1];
      PutLinked(ToResponse(rs[..|rs| - 1]), last.page.title, last.page.url)
  }

  /** The titles of a ranked list are pairwise distinct. */
  predicate DistinctTitles(rs: seq<SearchResult>) {
    forall i, j :: 0 <= i < j < |rs| ==> rs[i].page.title != rs[j].page.title
  }

  /**
   * With distinct titles the response lists every result's title and URL
   * in ranking order, one entry per result.
   */
  lemma {:induction false} ResponseOfDistinct(rs: seq<SearchResult>)
    requires DistinctTitles(rs)
    ensures ToResponse(rs) == seq(|rs|, i requires 0 <= i < |rs| => (rs[i].page.title, rs[i].page.url))
    decreases |rs|
  {
    if rs != [] {
      var init := rs[..|rs| - 1];
      var last := rs[|rs| - 1];
      ResponseOfDistinct(init);
      var m := ToResponse(init);
      assert last.page.title !in Keys(m) by {
        forall q | 0 <= q < |m| ensures Keys(m)[q] != last.page.title {
          assert Keys(m)[q] == init[q].page.title == rs[q].page.title;
        }
      }
      PutLinkedAppends(m, last.page.title, last.page.url);
    }
  }

  /** The body after the ranking: empty when nothing beats the floor, otherwise the response map. */
  function Respond(ranked: seq<SearchResult>, floor: real): Entries {
    if AllAtMost(ranked, floor) then [] else ToResponse(ranked)
  }

  /** The answer is empty exactly when no ranked result scores above the floor. */
  lemma {:induction false} RespondEmptyIff(ranked: seq<SearchResult>, floor: real)
    ensures Respond(ranked, floor) == [] <==> forall i :: 0 <= i < |ranked| ==> ranked[i].score <= floor
  {
    if !AllAtMost(ranked, floor) {
      var init := ranked[..|ranked| - 1];
      var last := ranked[|ranked| - 1];
      PutLinkedNonEmpty(ToResponse(init), last.page.title, last.page.url);
    }
  }

  lemma PutLinkedNonEmpty(m: Entries, k: string, v: string)
    ensures PutLinked(m, k, v) != []
  {
  }

  /** The 4.0 floor is 5 and the 5.0 floor 3: a lone result scoring 4 is dropped by one and kept by the other. */
  lemma FloorsDiffer(p: WebPage)
    ensures Respond([SearchResult(p, 4.0)], RelevanceFloor4) == []
    ensures Respond([SearchResult(p, 4.0)], RelevanceFloor5) == [(p.title, p.url)]
  {
    var one := [SearchResult(p, 4.0)];
    assert one[..0] == [];
    assert ToResponse(one) == PutLinked([], p.title, p.url) == [(p.title, p.url)];
    assert !AllAtMost(one, RelevanceFloor5);
  }

  // ---------------------------------------------------------------- endpoints

  /** The 4.0 `search` endpoint; `None` stands for an `IOException` from the query service. */
  function Search4(raw: Option<Entries>, query: string, fetch: string -> Option<string>,
                   linksOf: string -> seq<string>): Entries {
    match raw
    case None => []
    case Some(es) => Respond(SearchEngine4.SearchAndSort(BuildPages4(es), query, fetch, linksOf), RelevanceFloor4)
  }

  /**
   * The 4.0 answer: empty on a failed search or when every ranked score is
   * at most 5; otherwise one entry per ranked result (at most 15), each a
   * `(title, url)` pair of the query service's map.
   */
  lemma Search4Contract(es: Entries, query: string, fetch: string -> Option<string>, linksOf: string -> seq<string>)
    requires DistinctKeys(es)
    ensures Search4(None, query, fetch, linksOf) == []
    ensures var ranked := SearchEngine4.SearchAndSort(BuildPages4(es), query, fetch, linksOf);
            Search4(Some(es), query, fetch, linksOf) == [] <==> forall i :: 0 <= i < |ranked| ==> ranked[i].score <= RelevanceFloor4
    ensures |Search4(Some(es), query, fetch, linksOf)| <= 15
    ensures forall e :: e in Search4(Some(es), query, fetch, linksOf) ==> e in es
    ensures var ranked := SearchEngine4.SearchAndSort(BuildPages4(es), query, fetch, linksOf);
            Search4(Some(es), query, fetch, linksOf) != [] ==>
              Search4(Some(es), query, fetch, linksOf)
              == seq(|ranked|, i requires 0 <= i < |ranked| => (ranked[i].page.title, ranked[i].page.url))
  {
    var pages := BuildPages4(es);
    var ranked := SearchEngine4.SearchAndSort(pages, query, fetch, linksOf);
    assert Search4(Some(es), query, fetch, linksOf) == Respond(ranked, RelevanceFloor4);
    SearchEngine4.SearchAndSortContract(pages, query, fetch, linksOf);
    RespondEmptyIff(ranked, RelevanceFloor4);
    RankedTitlesDistinct4(es, query, fetch, linksOf);
    ResponseOfDistinct(ranked);
    Search4Members(es, query, fetch, linksOf);
  }

  lemma Search4Members(es: Entries, query: string, fetch: string -> Option<string>, linksOf: string -> seq<string>)
    ensures forall e :: e in Search4(Some(es), query, fetch, linksOf) ==> e in es
  {
    var pages := BuildPages4(es);
    var ranked := SearchEngine4.SearchAndSort(pages, query, fetch, linksOf);
    assert Search4(Some(es), query, fetch, linksOf) == Respond(ranked, RelevanceFloor4);
    SearchEngine4.SearchAndSortMembers(pages, query, fetch, linksOf);
    BuildPages4Entries(es);
    forall e | e in Search4(Some(es), query, fetch, linksOf) ensures e in es {
      ResponseFromRanked(ranked, e);
      var r :| r in ranked && e == (r.page.title, r.page.url);
      assert r.page in pages;
    }
  }

  /** Pages built from a map have distinct titles, so the ranked pages do too. */
  lemma RankedTitlesDistinct4(es: Entries, query: string, fetch: string -> Option<string>, linksOf: string -> seq<string>)
    requires DistinctKeys(es)
    ensures DistinctTitles(SearchEngine4.SearchAndSort(BuildPages4(es), query, fetch, linksOf))
  {
    var pages := BuildPages4(es);
    var ranked := SearchEngine4.SearchAndSort(pages, query, fetch, linksOf);
    assert NoDup(pages);
    SearchEngine4.SearchAndSortContract(pages, query, fetch, linksOf);
    forall i, j | 0 <= i < j < |ranked| ensures ranked[i].page.title != ranked[j].page.title {
      assert ranked[i] in ranked && ranked[j] in ranked;
      var a :| 0 <= a < |pages| && pages[a] == ranked[i].page;
      var b :| 0 <= b < |pages| && pages[b] == ranked[j].page;
      if a != b {
        assert es[a].0 != es[b].0;
      }
    }
  }

  /**
   * The 5.0 `search` endpoint. The 5.0 search engine is not part of this
   * model, so its ranking is the parameter `rank`; `isValid` stands for
   * `new URL(...)` accepting the string.
   */
  function Search5(raw: Option<Entries>, query: string, isValid: string -> bool,
                   rank: seq<WebPage> -> seq<SearchResult>): Entries {
    match raw
    case None => []
    case Some(es) => Respond(rank(BuildPages5(es, isValid)), RelevanceFloor5)
  }

  /**
   * The 5.0 answer: empty on a failed search or when every ranked score is
   * at most 3; otherwise, for a ranking that only returns pages it was given,
   * every URL in the answer is a repaired, valid URL of some entry stored
   * under the same title.
   */
  lemma Search5Contract(es: Entries, query: string, isValid: string -> bool, rank: seq<WebPage> -> seq<SearchResult>)
    requires forall x :: x in rank(BuildPages5(es, isValid)) ==> x.page in BuildPages5(es, isValid)
    ensures Search5(None, query, isValid, rank) == []
    ensures var ranked := rank(BuildPages5(es, isValid));
            Search5(Some(es), query, isValid, rank) == [] <==> forall i :: 0 <= i < |ranked| ==> ranked[i].score <= RelevanceFloor5
    ensures forall e :: e in Search5(Some(es), query, isValid, rank) ==>
              isValid(e.1) && exists i :: 0 <= i < |es| && es[i].0 == e.0 && FixDoubleEncoding(es[i].1) == e.1
    ensures var ranked := rank(BuildPages5(es, isValid));
            Search5(Some(es), query, isValid, rank) != [] && DistinctTitles(ranked) ==>
              Search5(Some(es), query, isValid, rank)
              == seq(|ranked|, i requires 0 <= i < |ranked| => (ranked[i].page.title, ranked[i].page.url))
  {
    var pages := BuildPages5(es, isValid);
    var ranked := rank(pages);
    assert Search5(Some(es), query, isValid, rank) == Respond(ranked, RelevanceFloor5);
    RespondEmptyIff(ranked, RelevanceFloor5);
    if DistinctTitles(ranked) {
      ResponseOfDistinct(ranked);
    }
    forall e | e in Search5(Some(es), query, isValid, rank)
      ensures isValid(e.1) && exists i :: 0 <= i < |es| && es[i].0 == e.0 && FixDoubleEncoding(es[i].1) == e.1
    {
      ResponseFromRanked(ranked, e);
      var r :| r in ranked && e == (r.page.title, r.page.url);
      BuildPages5Members(es, isValid, r.page);
    }
  }

  /** Every response entry is the title and URL of some ranked result. */
  lemma {:induction false} ResponseFromRanked(rs: seq<SearchResult>, e: (string, string))
    requires e in ToResponse(rs)
    ensures exists r :: r in rs && e == (r.page.title, r.page.url)
    decreases |rs|
  {
    var init := rs[..|rs| - 1];
    var last := rs[|rs| - 1];
    var m := ToResponse(init);
    PutLinkedMembers(m, last.page.title, last.page.url, e);
    if e != (last.page.title, last.page.url) {
      ResponseFromRanked(init, e);
      var r :| r in init && e == (r.page.title, r.page.url);
      assert r in rs;
    }
  }

  /** Every entry after a `put` is the new one or was there before. */
  lemma {:induction false} PutLinkedMembers(m: Entries, k: string, v: string, e: (string, string))
    requires e in PutLinked(m, k, v)
    ensures e == (k, v) || e in m
    decreases |m|
  {
    if m != [] && m[0].0 != k {
      if e != m[0] {
        PutLinkedMembers(m[1..], k, v, e);
      }
    } else if m != [] && e != (k, v) {
      assert e in m[1..];
    }
  }
}
