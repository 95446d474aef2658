/**
 * Extraction of (title, URL) pairs from a Google result page, the rule
 * revisions 2.0 to 4.0 share: each result block's first link must be a
 * Google redirect (`/url?q=`); its target is cut at the first `&`, given an
 * `https://` scheme when it has none, dropped when it points at YouTube or
 * has no title, and otherwise stored under its title, a later block
 * overwriting an earlier one with the same title.
 */
module ResultLinks {
  import opened Wrappers
  import opened Text
  import opened Pages

  const RedirectPrefix: string := "/url?q="
  const Scheme: string := "https://"

  /** One `div.kCrYT` block: the first link's `href` and the text of its `.vvjwJb` title ("" when absent). */
  datatype Block = Block(href: string, title: string)

  /** What the per-block rule does with a block. */
  datatype Outcome =
    | NotRedirect        // the link is not a Google redirect: ignored
    | Malformed          // `split("&")[0]` threw IndexOutOfBoundsException: logged and skipped
    | YouTubeLink        // filtered out
    | Untitled           // empty title: skipped
    | Keep(url: string)  // stored as `title -> url`

  /** The cite URL of a redirect link; `None` when `split("&")` yields no piece to index. */
  function CiteUrl(href: string): (r: Option<string>)
    ensures r.Some? ==> IsPrefix("http", r.value) && '&' !in r.value
  {
    match FirstAmpPiece(ReplaceAll(href, RedirectPrefix, ""))
    case None => None
    case Some(cut) => Some(if IsPrefix("http", cut) then cut else Scheme + cut)
  }

  function Classify(b: Block): Outcome {
    if !IsPrefix(RedirectPrefix, b.href) then NotRedirect
    else match CiteUrl(b.href)
      case None => Malformed
      case Some(url) =>
        if IsYouTube(url) then YouTubeLink
        else if b.title == "" then Untitled
        else Keep(url)
  }

  /**
   * A block is kept exactly when it is a redirect whose cite URL exists, is
   * not a YouTube link and has a title; the stored URL starts with `http`
   * and carries no query parameters after the first `&`.
   */
  lemma KeepCharacterisation(b: Block)
    ensures Classify(b).Keep? <==>
              IsPrefix(RedirectPrefix, b.href) && CiteUrl(b.href).Some?
              && !IsYouTube(CiteUrl(b.href).value) && b.title != ""
    ensures Classify(b).Keep? ==>
              Some(Classify(b).url) == CiteUrl(b.href)
              && IsPrefix("http", Classify(b).url) && '&' !in Classify(b).url
              && !IsYouTube(Classify(b).url)
  {
  }

  /** A pattern without `&` that does not occur in `u` is not a prefix of `u` followed by `&`. */
  lemma NoStraddle(u: string, t: string, pat: string)
    requires |pat| > 0 && '&' !in pat && !Contains(u, pat)
    requires t != [] && t[0] == '&'
    ensures !IsPrefix(pat, u + t)
  {
    var s := u + t;
    if |pat| <= |u| {
      assert s[..|pat|] == u[..|pat|];
      assert u[0..] == u;
    } else if |pat| <= |s| {
      assert s[..|pat|][|u|] == '&';
    }
  }

  /** A pattern occurrence that straddles `u` and a following `&` is impossible when the pattern has no `&`. */
  lemma {:induction false} ReplaceAllStopsAtAmp(u: string, t: string, pat: string, rep: string)
    requires |pat| > 0 && '&' !in pat && !Contains(u, pat)
    requires t != [] && t[0] == '&'
    ensures ReplaceAll(u + t, pat, rep) == u + ReplaceAll(t, pat, rep)
    decreases |u|
  {
    if u == [] {
      assert u + t == t;
    } else {
      var s := u + t;
      NoStraddle(u, t, pat);
      if Contains(u[1..], pat) {
        ContainsInSuffix(u, 1, pat);
      }
      ReplaceAllStopsAtAmp(u[1..], t, pat, rep);
      var r := ReplaceAll(t, pat, rep);
      ReplaceAllSkip(s, pat, rep);
      assert s[1..] == u[1..] + t;
      assert [u[0]] + (u[1..] + r) == u + r;
    }
  }

  /** Where the pattern does not start, the first character is copied and the scan moves on. */
  lemma ReplaceAllSkip(s: string, pat: string, rep: string)
    requires |pat| > 0 && s != [] && !IsPrefix(pat, s)
    ensures ReplaceAll(s, pat, rep) == [s[0]] + ReplaceAll(s[1..], pat, rep)
  {
  }

  /** Removing the redirect prefix: a leading occurrence is deleted and scanning resumes after it. */
  lemma StripRedirect(x: string)
    ensures ReplaceAll(RedirectPrefix + x, RedirectPrefix, "") == ReplaceAll(x, RedirectPrefix, "")
  {
    var href := RedirectPrefix + x;
    assert IsPrefix(RedirectPrefix, href);
    assert href[|RedirectPrefix|..] == x;
  }

  /** `split("&")[0]` of a string whose first `&` follows a non-empty `u` is `u`. */
  lemma FirstAmpPieceAt(u: string, t: string)
    requires u != [] && '&' !in u && t != [] && t[0] == '&'
    ensures FirstAmpPiece(u + t) == Some(u)
  {
    var s := u + t;
    assert s[|u|] == '&';
    var k := IndexOf(s, '&');
    assert forall j :: 0 <= j < |u| ==> s[j] == u[j] != '&';
    assert k == |u|;
    assert s[..k] == u;
  }

  /** `split("&")[0]` of a non-empty string without `&` is the string itself. */
  lemma FirstAmpPieceWhole(u: string)
    requires u != [] && '&' !in u
    ensures FirstAmpPiece(u) == Some(u)
  {
    assert IndexOf(u, '&') == |u|;
  }

  /**
   * Round trip: a redirect link built from a target URL (one that starts
   * with `http`, has no `&` and no embedded redirect prefix) followed by
   * Google's `&`-parameters gives the target back.
   */
  lemma RedirectRoundTrip(u: string, params: string)
    requires IsPrefix("http", u) && '&' !in u && !Contains(u, RedirectPrefix)
    ensures CiteUrl(RedirectPrefix + u + "&" + params) == Some(u)
  {
    var t := "&" + params;
    assert RedirectPrefix + u + "&" + params == RedirectPrefix + (u + t);
    StripRedirect(u + t);
    ReplaceAllStopsAtAmp(u, t, RedirectPrefix, "");
    var r := ReplaceAll(t, RedirectPrefix, "");
    assert r == "&" + ReplaceAll(params, RedirectPrefix, "") by {
      assert !IsPrefix(RedirectPrefix, t);
      assert t[1..] == params;
    }
    FirstAmpPieceAt(u, r);
  }

  /** The same without trailing parameters. */
  lemma RedirectRoundTripBare(u: string)
    requires IsPrefix("http", u) && '&' !in u && !Contains(u, RedirectPrefix)
    ensures CiteUrl(RedirectPrefix + u) == Some(u)
  {
    StripRedirect(u);
    ReplaceAllAbsent(u, RedirectPrefix, "");
    FirstAmpPieceWhole(u);
  }

  /** A redirect link with nothing but `&` after the prefix throws, and the block is skipped. */
  lemma EmptyTargetIsMalformed(title: string)
    ensures Classify(Block(RedirectPrefix + "&", title)) == Malformed
  {
    var href := RedirectPrefix + "&";
    assert IsPrefix(RedirectPrefix, href);
    assert href[|RedirectPrefix|..] == "&";
    assert ReplaceAll("&", RedirectPrefix, "") == "&" by {
      assert !IsPrefix(RedirectPrefix, "&");
      assert "&"[1..] == [];
    }
  }

  /** A target without a scheme gets `https://` in front. */
  lemma SchemeAdded(u: string)
    requires u != [] && u[0] != 'h' && '&' !in u && !Contains(u, RedirectPrefix)
    ensures CiteUrl(RedirectPrefix + u) == Some(Scheme + u)
  {
    StripRedirect(u);
    ReplaceAllAbsent(u, RedirectPrefix, "");
    FirstAmpPieceWhole(u);
    assert !IsPrefix("http", u);
  }

  /** `resultMap.put(title, citeUrl)` for a kept block; every other outcome leaves the map alone. */
  function Put(m: map<string, string>, b: Block): map<string, string> {
    match Classify(b)
    case Keep(url) => m[b.title := url]
    case _ => m
  }

  /** `parseAndAddResults`: the blocks in document order, folded into the map. */
  function ParseBlocks(blocks: seq<Block>, m: map<string, string>): map<string, string>
    decreases |blocks|
  {
    if blocks == [] then m else ParseBlocks(blocks[1..], Put(m, blocks[0]))
  }

  /** Reference: the URL of the last kept block titled `t`, if any. */
  function LastKept(blocks: seq<Block>, t: string): Option<string>
    decreases |blocks|
  {
    if blocks == [] then None
    else match LastKept(blocks[1..], t)
      case Some(u) => Some(u)
      case None =>
        if blocks[0].title == t && Classify(blocks[0]).Keep? then Some(Classify(blocks[0]).url) else None
  }

  /** `LastKept` finds a kept block with that title, and no later block is kept under it. */
  lemma {:induction false} LastKeptIsLast(blocks: seq<Block>, t: string)
    ensures LastKept(blocks, t).Some? ==>
              exists i :: 0 <= i < |blocks| && blocks[i].title == t
                && Classify(blocks[i]) == Keep(LastKept(blocks, t).value)
                && forall j :: i < j < |blocks| ==> !(blocks[j].title == t && Classify(blocks[j]).Keep?)
    ensures LastKept(blocks, t).None? ==>
              forall j :: 0 <= j < |blocks| ==> !(blocks[j].title == t && Classify(blocks[j]).Keep?)
    decreases |blocks|
  {
    if blocks != [] {
      LastKeptIsLast(blocks[1..], t);
      var tail := blocks[1..];
      if LastKept(tail, t).Some? {
        var i :| 0 <= i < |tail| && tail[i].title == t
                && Classify(tail[i]) == Keep(LastKept(tail, t).value)
                && forall j :: i < j < |tail| ==> !(tail[j].title == t && Classify(tail[j]).Keep?);
        assert blocks[i + 1] == tail[i];
        forall j | i + 1 < j < |blocks| ensures !(blocks[j].title == t && Classify(blocks[j]).Keep?) {
          assert blocks[j] == tail[j - 1];
        }
      } else {
        forall j | 1 <= j < |blocks| ensures !(blocks[j].title == t && Classify(blocks[j]).Keep?) {
          assert blocks[j] == tail[j - 1];
        }
      }
    }
  }

  /**
   * Later wins: after parsing, a title maps to the URL of the last kept block
   * with that title, and titles no kept block carries keep their old entry.
   */
  lemma {:induction false} ParseBlocksLastWins(blocks: seq<Block>, m: map<string, string>, t: string)
    ensures t in ParseBlocks(blocks, m) <==> t in m || LastKept(blocks, t).Some?
    ensures LastKept(blocks, t).Some? ==> ParseBlocks(blocks, m)[t] == LastKept(blocks, t).value
    ensures LastKept(blocks, t).None? && t in m ==> ParseBlocks(blocks, m)[t] == m[t]
    decreases |blocks|
  {
    if blocks != [] {
      ParseBlocksLastWins(blocks[1..], Put(m, blocks[0]), t);
    }
  }

  /** Parsing two block lists one after the other is parsing their concatenation. */
  lemma {:induction false} ParseBlocksAppend(a: seq<Block>, b: seq<Block>, m: map<string, string>)
    ensures ParseBlocks(a + b, m) == ParseBlocks(b, ParseBlocks(a, m))
    decreases |a|
  {
    if a == [] {
      assert a + b == b;
    } else {
      assert (a + b)[1..] == a[1..] + b;
      ParseBlocksAppend(a[1..], b, Put(m, a[0]));
    }
  }

  /** Blocks that are not kept change nothing. */
  lemma {:induction false} SkippedBlocksChangeNothing(blocks: seq<Block>, m: map<string, string>)
    requires forall i :: 0 <= i < |blocks| ==> !Classify(blocks[i]).Keep?
    ensures ParseBlocks(blocks, m) == m
    decreases |blocks|
  {
    if blocks != [] {
      SkippedBlocksChangeNothing(blocks[1..], m);
    }
  }

  /** A block that throws is skipped and the blocks after it are still parsed. */
  lemma MalformedBlockSkipped(pre: seq<Block>, b: Block, post: seq<Block>, m: map<string, string>)
    requires Classify(b) == Malformed
    ensures ParseBlocks(pre + [b] + post, m) == ParseBlocks(pre + post, m)
  {
    ParseBlocksAppend(pre + [b], post, m);
    ParseBlocksAppend(pre, [b], m);
    ParseBlocksAppend(pre, post, m);
    assert ParseBlocks([b], ParseBlocks(pre, m)) == ParseBlocks(pre, m) by {
      assert [b][1..] == [];
    }
  }

  /** Every stored URL came from a kept block: it starts with `http`, has no `&` and is no YouTube link. */
  lemma {:induction false} ParsedUrlsAreClean(blocks: seq<Block>, m: map<string, string>, t: string)
    requires t in ParseBlocks(blocks, m) && t !in m
    ensures t != ""
    ensures IsPrefix("http", ParseBlocks(blocks, m)[t]) && '&' !in ParseBlocks(blocks, m)[t]
    ensures !IsYouTube(ParseBlocks(blocks, m)[t])
  {
    ParseBlocksLastWins(blocks, m, t);
    LastKeptIsLast(blocks, t);
    var i :| 0 <= i < |blocks| && blocks[i].title == t && Classify(blocks[i]) == Keep(LastKept(blocks, t).value);
    KeepCharacterisation(blocks[i]);
  }

  const PageSize: nat := 50
  const ResultLimit: nat := 100

  /**
   * The 3.0/4.0 `search` loop from `start` on: fetch the page at `start`
   * (`None` is an `IOException`, which abandons the whole search) and add
   * its blocks, in steps of 50 below 100.
   */
  function SearchFrom(start: nat, fetch: nat -> Option<string>, blocksOf: string -> seq<Block>,
                      acc: map<string, string>): Option<map<string, string>>
    decreases ResultLimit - start
  {
    if start >= ResultLimit then Some(acc)
    else match fetch(start)
      case None => None
      case Some(page) => SearchFrom(start + PageSize, fetch, blocksOf, ParseBlocks(blocksOf(page), acc))
  }

  function SearchTwoPages(fetch: nat -> Option<string>, blocksOf: string -> seq<Block>): Option<map<string, string>> {
    SearchFrom(0, fetch, blocksOf, map[])
  }

  /**
   * The two-page search succeeds exactly when both pages (start 0 and start
   * 50) are fetched, and then equals parsing the first page's blocks
   * followed by the second's into an empty map.
   */
  lemma SearchTwoPagesContract(fetch: nat -> Option<string>, blocksOf: string -> seq<Block>)
    ensures SearchTwoPages(fetch, blocksOf).Some? <==> fetch(0).Some? && fetch(50).Some?
    ensures fetch(0).Some? && fetch(50).Some? ==>
              SearchTwoPages(fetch, blocksOf)
              == Some(ParseBlocks(blocksOf(fetch(0).value) + blocksOf(fetch(50).value), map[]))
  {
    if fetch(0).Some? && fetch(50).Some? {
      ParseBlocksAppend(blocksOf(fetch(0).value), blocksOf(fetch(50).value), map[]);
    }
  }

  /** The 2.0 `search`: a single page of 50 results. */
  function SearchOnePage(content: Option<string>, blocksOf: string -> seq<Block>): (r: Option<map<string, string>>)
    ensures r.Some? <==> content.Some?
  {
    match content
    case None => None
    case Some(page) => Some(ParseBlocks(blocksOf(page), map[]))
  }

  /**
   * The 2.0 search fails exactly when its page cannot be fetched; otherwise
   * a title is in the map exactly when some block kept it, and it maps to
   * the URL of the last such block, a non-YouTube `http` URL without `&`
   * under a non-empty title.
   */
  lemma SearchOnePageContract(content: Option<string>, blocksOf: string -> seq<Block>, t: string)
    ensures SearchOnePage(content, blocksOf).Some? <==> content.Some?
    ensures content.Some? ==>
              var m := SearchOnePage(content, blocksOf).value;
              var blocks := blocksOf(content.value);
              && (t in m <==> LastKept(blocks, t).Some?)
              && (t in m ==> m[t] == LastKept(blocks, t).value && t != ""
                             && IsPrefix("http", m[t]) && '&' !in m[t] && !IsYouTube(m[t]))
  {
    if content.Some? {
      var blocks := blocksOf(content.value);
      ParseBlocksLastWins(blocks, map[], t);
      if t in ParseBlocks(blocks, map[]) {
        ParsedUrlsAreClean(blocks, map[], t);
      }
    }
  }

  /** Every title in a search result came from a kept block and maps to a clean URL. */
  lemma SearchTwoPagesClean(fetch: nat -> Option<string>, blocksOf: string -> seq<Block>, t: string)
    requires SearchTwoPages(fetch, blocksOf).Some? && t in SearchTwoPages(fetch, blocksOf).value
    ensures t != ""
    ensures IsPrefix("http", SearchTwoPages(fetch, blocksOf).value[t])
    ensures '&' !in SearchTwoPages(fetch, blocksOf).value[t]
    ensures !IsYouTube(SearchTwoPages(fetch, blocksOf).value[t])
  {
    SearchTwoPagesContract(fetch, blocksOf);
    ParsedUrlsAreClean(blocksOf(fetch(0).value) + blocksOf(fetch(50).value), map[], t);
  }
}
