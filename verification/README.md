# EpisodeGo search pipeline in Dafny

EpisodeGo is a small Spring service that answers searches about the TV
series *Friends*. It sends the query to Google, extracts the result links
and titles, scores each result against a table of weighted keywords, ranks
the results, and selects what to return. It does this in five revisions.
This project models that pipeline as pure functions over strings and
sequences, and proves the properties each revision promises.

| file | module | what it models |
|---|---|---|
| `wrappers.dfy` | `Wrappers` | `Option`, used for fetch failures and thrown exceptions |
| `text.dfy` | `Text` | the Java string operations the code relies on: `contains`, ASCII `toLowerCase`, `split("\\s+")`, literal `replace`, `split("&")[0]`; a reference word split that `split("\\s+")` is proved against |
| `seqs.dfy` | `Seqs` | subsequences, duplicate-freedom, prefixes |
| `ranking.dfy` | `Ranking` | the stable descending `List.sort` |
| `pages.dfy` | `Pages` | `WebPage`, `SearchResult`, the Wikipedia and YouTube URL tests |
| `keywords.dfy` | `Keywords` | the rule-table scorer shared by every revision |
| `selection.dfy` | `Selection` | the top-15 / Wikipedia-at-most-3 selection of 3.0 and 4.0, with a reference definition |
| `search_engine4.dfy` | `SearchEngine4` | the 4.0 scorer with sub-pages, and `searchAndSort` |
| `search_engine3.dfy` | `SearchEngine3` | the 3.0 title scorer and its inline selection |
| `search_engine2.dfy` | `SearchEngine2` | the 2.0 scorer (negative weights, Wikipedia bonus, sub-page score) and its top-20 cut |
| `result_links.dfy` | `ResultLinks` | the per-block link rule of 2.0 to 4.0, the title map, one- and two-page search |
| `query_service1.dfy` | `QueryService1` | the 1.0 query service: occurrence scoring and `sortByScore` |
| `controllers.dfy` | `Controllers` | the 4.0 and 5.0 `/api/search` endpoints: `%25` repair, page filter, relevance gate, response map |

## Inputs

Everything outside the pure logic is passed in as a parameter:
- **HTTP fetches** become `fetch: string -> Option<string>`, or `nat -> Option<string>` keyed by result offset. `None` is an `IOException`.
- **Jsoup parsing** of a fetched page becomes a function of the page text. `blocksOf` gives the result blocks as `(href, title)` pairs, or `(href, title, snippet)` in 1.0. `linksOf` gives the anchors' `href`s.
- **`HashMap` iteration order** is an arbitrary input sequence. For 1.0 this is `order`; for the controllers the entries arrive as a sequence.
- **`isValidUrl`** is a predicate `isValid`.
- **The 5.0 search engine** is the function `rank`, because its source is not part of this model.

Scores are `real`. Every weight is a multiple of 0.5, so the Java
`double` sums are exact.

Where the code and its comments disagree, the model follows the code:
- the 5.0 relevance gate tests `> 3`, while the comments say 5;
- the 4.0 gate tests `> 5`, while its doc comment says "<= 0".

## Model

| member | source | states |
|---|---|---|
| Text.ToLowerMeaning | EpisodeGo4.0/src/main/java/com/example/service/SearchEngine.java:90 | Lower-casing keeps the length and leaves no ASCII capital. Each capital becomes the letter 32 code points above it, and every other character stays. A string is unchanged exactly when it has no capital. |
| Text.ToLowerIdempotent | EpisodeGo4.0/src/main/java/com/example/service/SearchEngine.java:90 | Lower-casing twice is lower-casing once. |
| Text.TokensAreWords | EpisodeGo4.0/src/main/java/com/example/service/SearchEngine.java:128 | `split("\\s+")` returns the words of the query, that is, its maximal non-empty whitespace-free runs in order (`Words`). An empty first token is added exactly when the query starts with whitespace and has a word. `""` gives `[""]`, and an all-whitespace query gives no token. |
| Text.TokensMeaning | EpisodeGo4.0/src/main/java/com/example/service/SearchEngine.java:128-133 | The tokens are whitespace-free substrings of the query, and joined they give the query with its whitespace removed. Only the first token can be empty, exactly when the query is empty or starts with whitespace before some non-blank text. A query that is only whitespace has no tokens. |
| Text.WordsShape | EpisodeGo4.0/src/main/java/com/example/service/SearchEngine.java:128 | Every word of the reference split is non-empty, free of whitespace and a substring of the text. |
| Text.WordsConcat | EpisodeGo4.0/src/main/java/com/example/service/SearchEngine.java:128 | The words, joined, are the text with its whitespace removed. |
| Text.PiecesWords | EpisodeGo4.0/src/main/java/com/example/service/SearchEngine.java:128 | Before trailing empty strings are dropped, the pieces between whitespace runs are the words. There is an empty piece in front when the text starts with whitespace, and one at the end when it is empty or ends with whitespace. |
| Text.LeadingSpaceGivesEmptyToken | EpisodeGo4.0/src/main/java/com/example/service/SearchEngine.java:128-133 | A query that starts with whitespace and has some non-space text yields an empty first token, as Java keeps the leading empty piece. |
| Text.FirstAmpPiece | EpisodeGo4.0/src/main/java/com/example/service/GoogleQueryService.java:54 | `split("&")[0]` throws exactly for a non-empty string made only of `&`. Otherwise it is the prefix before the first `&`, and contains no `&`. |
| Text.ReplaceAllLength | EpisodeGo5.0/src/main/java/com/example/controller/GoogleSearchController.java:122 | Each non-overlapping replacement changes the length by `\|rep\| - \|pat\|`. |
| Text.CountMatchesPositive | EpisodeGo1.0/src/main/java/google/demo/service/GoogleQueryService.java:96 | The non-overlapping match count is positive exactly when the pattern occurs. |
| Text.ReplaceAllAbsent | EpisodeGo5.0/src/main/java/com/example/controller/GoogleSearchController.java:118-124 | Replacing a pattern that does not occur returns the input unchanged. |
| Ranking.SortDesc | EpisodeGo4.0/src/main/java/com/example/service/SearchEngine.java:53 | The sorted list is a permutation (same multiset) of the input, in non-increasing score order. |
| Ranking.SortDescStable | EpisodeGo4.0/src/main/java/com/example/service/SearchEngine.java:53 | For every score value, the results with that score appear in their input order (a stable sort). |
| Ranking.SortDescOfSorted | EpisodeGo2.0/src/main/java/google/demo/service/SearchEngine.java:78 | Sorting an already sorted list returns it unchanged. |
| Keywords.TableScoreBounds | EpisodeGo2.0/src/main/java/google/demo/service/SearchEngine.java:210-289 | A rule table scores between the sum of its negative weights and the sum of its positive weights. |
| Keywords.RuleAddsOnce | EpisodeGo4.0/src/main/java/com/example/service/SearchEngine.java:93-125 | Each rule adds its weight exactly once when any of its triggers occurs, however many do, and nothing otherwise. |
| Keywords.QueryBonusAppend | EpisodeGo4.0/src/main/java/com/example/service/SearchEngine.java:128-133 | Query tokens add independently, so a duplicated token counts twice. |
| Keywords.QueryBonusBounds | EpisodeGo4.0/src/main/java/com/example/service/SearchEngine.java:128-133 | The query bonus is between 0 and the number of tokens. |
| Keywords.EmptyTokenMatches | EpisodeGo4.0/src/main/java/com/example/service/SearchEngine.java:128-133 | An empty leading token always matches and adds at least 1.0. |
| Keywords.TextScoreNonNegative | EpisodeGo3.0/src/main/java/google/demo/service/SearchEngine.java:110-157 | A table whose weights are all positive never gives a negative score. |
| Keywords.NoRuleFires | EpisodeGo2.0/src/main/java/google/demo/service/SearchEngine.java:98-119 | When no rule of a table fires, it adds nothing. |
| SearchEngine4.TextScore | EpisodeGo4.0/src/main/java/com/example/service/SearchEngine.java:20-136 | All eleven weights are positive, so `calcScoreFromText` lies between 0 and the sum of the weights plus one point per query token. |
| SearchEngine4.LiuRenXingFiresTwoRules | EpisodeGo4.0/src/main/java/com/example/service/SearchEngine.java:93-119 | Text containing 六人行 fires both the Friends rule (3.0) and the Liu Renxing rule (1.5), so it scores at least 4.5. |
| SearchEngine4.SubPageScore | EpisodeGo4.0/src/main/java/com/example/service/SearchEngine.java:76-83 | A sub-page whose fetch throws `IOException` scores 0. Any sub-page score lies between 0 and the sum of the weights plus one point per query token. |
| SearchEngine4.NonYouTube | EpisodeGo4.0/src/main/java/com/example/service/SearchEngine.java:155-160 | Exactly the links without `youtube.com` or `youtu.be` survive, in order. |
| SearchEngine4.FirstNonYouTubeIsTake | EpisodeGo4.0/src/main/java/com/example/service/SearchEngine.java:148-168 | The link loop that breaks at 2 keeps the first 2 non-YouTube links. |
| SearchEngine4.SubLinks | EpisodeGo4.0/src/main/java/com/example/service/SearchEngine.java:148-168 | At most 2 sub-links, none of them YouTube, and none when the main page cannot be fetched. |
| SearchEngine4.SubScoreSumAppend | EpisodeGo4.0/src/main/java/com/example/service/SearchEngine.java:67-71 | The sub-page sum over a concatenation is the sum of the parts. |
| SearchEngine4.FailedSubPageContributesNothing | EpisodeGo4.0/src/main/java/com/example/service/SearchEngine.java:76-83 | Removing a sub-link whose fetch fails does not change the sum. |
| SearchEngine4.CompositeScore | EpisodeGo4.0/src/main/java/com/example/service/SearchEngine.java:62-74 | The composite score is at least the title score, and equals it when the main page cannot be fetched. |
| SearchEngine4.CompositeScoreParts | EpisodeGo4.0/src/main/java/com/example/service/SearchEngine.java:62-74 | The composite score is the title score plus 0.5 times the sum of the sub-page scores. |
| SearchEngine4.ScorePages | EpisodeGo4.0/src/main/java/com/example/service/SearchEngine.java:43-50 | Distinct pages give distinct scored results, so the later selection sees no duplicates. |
| SearchEngine4.ScoredMembers | EpisodeGo4.0/src/main/java/com/example/service/SearchEngine.java:43-50 | Every page appears among the scored results with its composite score, and every scored result is an input page carrying its own composite score. |
| SearchEngine4.SearchAndSortContract | EpisodeGo4.0/src/main/java/com/example/service/SearchEngine.java:43-57 | At most 15 results, at most 3 of them Wikipedia links, each a scored input page. Results are duplicate-free for distinct pages. The best Wikipedia result leads and the rest descend; with no Wikipedia page the whole list descends. |
| Selection.FirstWiki | EpisodeGo4.0/src/main/java/com/example/service/SearchEngine.java:202-211 | The index of the first Wikipedia result, or the length when there is none. |
| Selection.PickTop | EpisodeGo4.0/src/main/java/com/example/service/SearchEngine.java:195-241 | Capacity and quota hold, and the first Wikipedia result leads. With no Wikipedia result the output is a subsequence of the input. Members come from the input, duplicates are not introduced, and a short output holds every non-Wikipedia input. |
| Selection.PickTopLoops | EpisodeGo4.0/src/main/java/com/example/service/SearchEngine.java:195-241 | The three Java loops compute `PickTop` and respect capacity and quota. |
| Selection.PriorityLoop | EpisodeGo4.0/src/main/java/com/example/service/SearchEngine.java:202-211 | The indexed search returns the input without its first Wikipedia result and that result alone, or the input and nothing when there is none. |
| Selection.FillLoop | EpisodeGo4.0/src/main/java/com/example/service/SearchEngine.java:214-225 | The fill loop as written computes the recursive fill. |
| Selection.BackfillLoop | EpisodeGo4.0/src/main/java/com/example/service/SearchEngine.java:228-238 | The backfill loop with its membership test computes the recursive backfill. |
| Selection.FillIsAdmit | EpisodeGo4.0/src/main/java/com/example/service/SearchEngine.java:214-225 | The fill loop is the quota-limited filter of the rest, cut to the free capacity. |
| Selection.BackfillAddsNothing | EpisodeGo4.0/src/main/java/com/example/service/SearchEngine.java:228-238 | The backfill loop never adds a result. |
| Selection.FillCoversNonWiki | EpisodeGo4.0/src/main/java/com/example/service/SearchEngine.java:214-225 | When the fill loop ends below capacity, every non-Wikipedia result of the rest is already in the list. |
| Selection.BalancedBounds | EpisodeGo4.0/src/main/java/com/example/service/SearchEngine.java:195-241 | The reference selection is within capacity and quota and starts with the first Wikipedia result. |
| Selection.BalancedMembers | EpisodeGo4.0/src/main/java/com/example/service/SearchEngine.java:195-241 | The reference selection takes only input results, in input order when there is no Wikipedia result. |
| Selection.PickTopIsBalanced | EpisodeGo4.0/src/main/java/com/example/service/SearchEngine.java:195-241 | The loops equal the reference selection: the priority Wikipedia result, then the quota-filtered rest cut to the capacity. |
| Selection.BalancedNoDup | EpisodeGo4.0/src/main/java/com/example/service/SearchEngine.java:202-238 | The selection of a duplicate-free list is duplicate-free. |
| Selection.BalancedCovers | EpisodeGo4.0/src/main/java/com/example/service/SearchEngine.java:214-238 | A selection shorter than the capacity holds every non-Wikipedia input. |
| Selection.BalancedOrder | EpisodeGo4.0/src/main/java/com/example/service/SearchEngine.java:202-225 | On a sorted input the tail descends, and the leading Wikipedia result scores at least as much as every Wikipedia input. |
| Selection.BalancedIdempotent | EpisodeGo4.0/src/main/java/com/example/service/SearchEngine.java:195-241 | Selecting again from a selection changes nothing. |
| Selection.RankAndPickContract | EpisodeGo4.0/src/main/java/com/example/service/SearchEngine.java:43-57 | The sort-then-select pipeline keeps capacity, quota, membership, duplicate-freedom, Wikipedia-first and descending order. |
| SearchEngine3.TitleScore | EpisodeGo3.0/src/main/java/google/demo/service/SearchEngine.java:110-157 | The 3.0 title score is never negative, because every weight is positive. |
| SearchEngine3.EricSpellingsShareOneWeight | EpisodeGo3.0/src/main/java/google/demo/service/SearchEngine.java:142-144 | Both spellings of the producer's name fire the same single 2.5 rule. |
| SearchEngine3.ScoredMembers | EpisodeGo3.0/src/main/java/google/demo/service/SearchEngine.java:44-48 | Every page appears among the scored results with its title score, and every scored result is an input page carrying its own title score. |
| SearchEngine3.Backfill3NoOp | EpisodeGo3.0/src/main/java/google/demo/service/SearchEngine.java:88-98 | The 3.0 backfill loop, which checks capacity after adding, adds nothing once every non-Wikipedia result is present. |
| SearchEngine3.SelectInlineIsPickTop | EpisodeGo3.0/src/main/java/google/demo/service/SearchEngine.java:53-100 | The inline 3.0 selection selects exactly what the 4.0 selection does. |
| SearchEngine3.SearchAndSortContract | EpisodeGo3.0/src/main/java/google/demo/service/SearchEngine.java:42-101 | At most 15 results, at most 3 of them Wikipedia links, each a scored input page. Results are duplicate-free for distinct pages, and the best Wikipedia result leads while the rest descend. |
| SearchEngine2.GuardIsRedundant | EpisodeGo2.0/src/main/java/google/demo/service/SearchEngine.java:98-119 | The outer any-name test around the six character rules changes no score. |
| SearchEngine2.TitleRuleScoreIsTable | EpisodeGo2.0/src/main/java/google/demo/service/SearchEngine.java:94-184 | The title rules, guard included, sum like one flat table of independent rules. |
| SearchEngine2.FriendRuleGainsTwo | EpisodeGo2.0/src/main/java/google/demo/service/SearchEngine.java:147-150 | A title with `friend`, 朋友 or 老友 gains exactly 2.0 from that rule. |
| SearchEngine2.SubpageScoreBounds | EpisodeGo2.0/src/main/java/google/demo/service/SearchEngine.java:210-289 | The sub-page score lies in [-19.0, 24.5]. |
| SearchEngine2.SubpageSums | EpisodeGo2.0/src/main/java/google/demo/service/SearchEngine.java:210-289 | The positive sub-page weights sum to 24.5 and the negative ones to -19.0. |
| SearchEngine2.WikipediaBonusExact | EpisodeGo2.0/src/main/java/google/demo/service/SearchEngine.java:193-195 | A Wikipedia URL scores exactly 5.0 more than any other URL with the same title and content. |
| SearchEngine2.FailedFetchKeepsTitlePart | EpisodeGo2.0/src/main/java/google/demo/service/SearchEngine.java:198-205 | A failed content fetch removes exactly the sub-page score, which moves the total by at most [-19, 24.5]. |
| SearchEngine2.ScoredMembers | EpisodeGo2.0/src/main/java/google/demo/service/SearchEngine.java:55-58 | Every page appears among the scored results, scored with its own fetch, and every scored result is an input page with that score. Distinct pages give distinct results. |
| SearchEngine2.FallbackAddsNothing | EpisodeGo2.0/src/main/java/google/demo/service/SearchEngine.java:64-79 | The "add a Wikipedia link" branch and its second sort leave the ranking unchanged. |
| SearchEngine2.SearchAndSortContract | EpisodeGo2.0/src/main/java/google/demo/service/SearchEngine.java:52-87 | The output has min(pages, 20) results in non-increasing order, each a scored input page, and is a permutation of all results when there are at most 20. |
| ResultLinks.CiteUrl | EpisodeGo4.0/src/main/java/com/example/service/GoogleQueryService.java:54-58 | A cite URL, when the cut does not throw, starts with `http` and contains no `&`. |
| ResultLinks.KeepCharacterisation | EpisodeGo4.0/src/main/java/com/example/service/GoogleQueryService.java:53-69 | A block is stored exactly when its href starts with `/url?q=`, the cut does not throw, the URL is not YouTube, and the title is non-empty. The stored URL is clean. |
| ResultLinks.RedirectRoundTrip | EpisodeGo4.0/src/main/java/com/example/service/GoogleQueryService.java:54 | `/url?q=` + url + `&` + parameters gives back url, for any url that starts with `http` and has no `&` or embedded prefix. |
| ResultLinks.RedirectRoundTripBare | EpisodeGo4.0/src/main/java/com/example/service/GoogleQueryService.java:54 | The same round trip without trailing parameters. |
| ResultLinks.SchemeAdded | EpisodeGo4.0/src/main/java/com/example/service/GoogleQueryService.java:56-58 | A target without `http` is given `https://` in front. |
| ResultLinks.EmptyTargetIsMalformed | EpisodeGo4.0/src/main/java/com/example/service/GoogleQueryService.java:52-74 | A redirect with only `&` after the prefix throws, and the block is skipped. |
| ResultLinks.LastKeptIsLast | EpisodeGo4.0/src/main/java/com/example/service/GoogleQueryService.java:69 | The reference "last kept block per title" names a kept block with that title and no later kept block with it. |
| ResultLinks.ParseBlocksLastWins | EpisodeGo4.0/src/main/java/com/example/service/GoogleQueryService.java:47-76 | After parsing, a title maps to the URL of the last kept block with that title; other titles keep their old entries. |
| ResultLinks.ParseBlocksAppend | EpisodeGo4.0/src/main/java/com/example/service/GoogleQueryService.java:36-40 | Parsing two pages into one map is parsing their concatenation, so later wins across pages. |
| ResultLinks.SkippedBlocksChangeNothing | EpisodeGo2.0/src/main/java/google/demo/service/GoogleQueryService.java:42-69 | Blocks that are not kept leave the map unchanged. |
| ResultLinks.MalformedBlockSkipped | EpisodeGo3.0/src/main/java/google/demo/service/GoogleQueryService.java:59-89 | A block that throws is dropped and the blocks after it are still parsed. |
| ResultLinks.ParsedUrlsAreClean | EpisodeGo3.0/src/main/java/google/demo/service/GoogleQueryService.java:62-81 | Every newly stored title is non-empty, and its URL starts with `http`, has no `&` and is not YouTube. |
| ResultLinks.SearchTwoPagesContract | EpisodeGo4.0/src/main/java/com/example/service/GoogleQueryService.java:30-42 | The two-page search succeeds exactly when both pages (start 0 and 50) are fetched, and then equals parsing both pages' blocks in order. |
| ResultLinks.SearchTwoPagesClean | EpisodeGo3.0/src/main/java/google/demo/service/GoogleQueryService.java:35-48 | Every title in a two-page result is non-empty and maps to a clean, non-YouTube `http` URL. |
| ResultLinks.SearchOnePageContract | EpisodeGo2.0/src/main/java/google/demo/service/GoogleQueryService.java:27-71 | The 2.0 single-page search fails exactly when its page cannot be fetched. Otherwise a title is in the map exactly when some block was kept under it. It maps to the URL of the last such block, which is a non-YouTube `http` URL without `&` under a non-empty title. |
| QueryService1.CountOccurrencesPositive | EpisodeGo1.0/src/main/java/google/demo/service/GoogleQueryService.java:92-97 | The count is positive exactly when text and keyword are non-empty and the keyword occurs. |
| QueryService1.CiteUrl | EpisodeGo1.0/src/main/java/google/demo/service/GoogleQueryService.java:52 | The 1.0 cut URL contains no `&`. |
| QueryService1.BlockScoreProperties | EpisodeGo1.0/src/main/java/google/demo/service/GoogleQueryService.java:63-76 | A score is at least 1, a keyword hit adds at least 5 and a 中央公園 hit at least 10, and the target URL adds exactly 1000. |
| QueryService1.AddBlockStoresRawCut | EpisodeGo1.0/src/main/java/google/demo/service/GoogleQueryService.java:52-80 | A stored block puts the raw cut URL (no scheme repair, no YouTube filter) and its score under its title in both maps, replacing earlier entries. |
| QueryService1.EmptyTitleWithSnippetStored | EpisodeGo1.0/src/main/java/google/demo/service/GoogleQueryService.java:56-58 | An untitled block with a snippet is stored under the empty title. |
| QueryService1.AddBlockSkips | EpisodeGo1.0/src/main/java/google/demo/service/GoogleQueryService.java:51-84 | A block whose cut throws, or with neither title nor snippet, changes nothing. |
| QueryService1.CollectKeepsKeysEqual | EpisodeGo1.0/src/main/java/google/demo/service/GoogleQueryService.java:79-80 | The URL and score maps always have the same titles, and every new title comes from a block with a cite URL. |
| QueryService1.CollectKeepsTargetBoosted | EpisodeGo1.0/src/main/java/google/demo/service/GoogleQueryService.java:71-80 | Every title stored with the target URL carries the 1000 bonus. |
| QueryService1.CollectContract | EpisodeGo1.0/src/main/java/google/demo/service/GoogleQueryService.java:38-84 | Parsing fails exactly when the page cannot be fetched. Otherwise the URL and score maps have the same titles, every title comes from a block with a cite URL, and every title stored with the target URL carries the 1000 bonus. |
| QueryService1.SortByScoreContract | EpisodeGo1.0/src/main/java/google/demo/service/GoogleQueryService.java:100-108 | The result lists every stored title exactly once with its URL and score, in non-increasing score order, with ties in iteration order. |
| Controllers.FixIsReplaceAll | EpisodeGo5.0/src/main/java/com/example/controller/GoogleSearchController.java:118-125 | The `contains` guard changes nothing: the repair is the plain replacement. |
| Controllers.FixUndoesEncoding | EpisodeGo5.0/src/main/java/com/example/controller/GoogleSearchController.java:118-125 | Round trip: repairing a URL whose `%` signs were encoded once more gives the URL back. |
| Controllers.FixDoubleEncodingLength | EpisodeGo5.0/src/main/java/com/example/controller/GoogleSearchController.java:118-125 | Each repaired `%25` shortens the URL by 2, and a URL without `%25` is unchanged. |
| Controllers.FixIsSinglePass | EpisodeGo5.0/src/main/java/com/example/controller/GoogleSearchController.java:122 | The repair is not idempotent: `%2525` becomes `%25`. |
| Controllers.BuildPages4Entries | EpisodeGo4.0/src/main/java/com/example/controller/GoogleSearchController.java:48-53 | A page is built exactly when the map holds its title and URL as an entry. Distinct map keys give duplicate-free pages with distinct titles. |
| Controllers.BuildPages5Members | EpisodeGo5.0/src/main/java/com/example/controller/GoogleSearchController.java:51-64 | A 5.0 page is exactly an entry's title with its repaired URL, when that URL is valid. |
| Controllers.BuildPages5AllValid | EpisodeGo5.0/src/main/java/com/example/controller/GoogleSearchController.java:57-63 | With every repaired URL valid, no entry is dropped. |
| Controllers.AllAtMost | EpisodeGo4.0/src/main/java/com/example/controller/GoogleSearchController.java:59-65 | The gate loop reports true exactly when no score exceeds the floor. |
| Controllers.PutLinked | EpisodeGo4.0/src/main/java/com/example/controller/GoogleSearchController.java:76 | `put` grows the map by one exactly for a new key. |
| Controllers.PutLinkedKeys | EpisodeGo4.0/src/main/java/com/example/controller/GoogleSearchController.java:76 | After `put` the keys are the old keys and the new one. |
| Controllers.PutLinkedDistinct | EpisodeGo4.0/src/main/java/com/example/controller/GoogleSearchController.java:76 | `put` keeps the keys distinct. |
| Controllers.PutLinkedAppends | EpisodeGo4.0/src/main/java/com/example/controller/GoogleSearchController.java:76 | `put` of a new key appends it last. |
| Controllers.PutLinkedMembers | EpisodeGo4.0/src/main/java/com/example/controller/GoogleSearchController.java:76 | Every entry after `put` is the new one or an old one. |
| Controllers.ResponseOfDistinct | EpisodeGo4.0/src/main/java/com/example/controller/GoogleSearchController.java:72-77 | With distinct titles the response lists every ranked title and URL in ranked order. |
| Controllers.ResponseFromRanked | EpisodeGo4.0/src/main/java/com/example/controller/GoogleSearchController.java:72-77 | Every response entry is a ranked result's title and URL. |
| Controllers.RespondEmptyIff | EpisodeGo4.0/src/main/java/com/example/controller/GoogleSearchController.java:59-79 | The answer is empty exactly when no ranked result scores above the floor. |
| Controllers.FloorsDiffer | EpisodeGo5.0/src/main/java/com/example/controller/GoogleSearchController.java:69-80 | A lone result scoring 4 is dropped by the 4.0 gate and kept by the 5.0 gate. |
| Controllers.RankedTitlesDistinct4 | EpisodeGo4.0/src/main/java/com/example/controller/GoogleSearchController.java:48-56 | Pages built from a map rank with distinct titles. |
| Controllers.Search4Contract | EpisodeGo4.0/src/main/java/com/example/controller/GoogleSearchController.java:42-86 | The answer is empty on an `IOException`, and empty exactly when no ranked score exceeds 5. Otherwise it lists the ranked titles and URLs in order, at most 15, each an entry of the query service's map. |
| Controllers.Search4Members | EpisodeGo4.0/src/main/java/com/example/controller/GoogleSearchController.java:48-77 | Every answer entry is an entry of the query service's map. |
| Controllers.Search5Contract | EpisodeGo5.0/src/main/java/com/example/controller/GoogleSearchController.java:45-97 | The answer is empty on an `IOException`, and empty exactly when no ranked score exceeds 3. Each answered URL is a valid repaired URL of an entry with the same title; with distinct ranked titles the answer follows the ranked order. |

## Left out

- Fetching: HTTP connections, user agents, timeouts and response codes are I/O. A fetch is an input `Option<string>`.
- SearchEngine4.SubPageScore: a fetch has only two outcomes here, text or `IOException`. In 4.0, `Jsoup.connect` throws `IllegalArgumentException` for an empty or malformed URL, and nothing catches it. `abs:href` is `""` for every relative or `javascript:` link, because the page text is parsed without a base URI. Fetching such a sub-link (lines 78 and 181) therefore fails the whole request instead of scoring 0. The model scores every failed fetch 0, in `SubPageScore` and in `SubLinks` alike, because unchecked exceptions from the foreign library are not modelled.
- URL building: `URLEncoder.encode` and the `"Friends "` query prefix only shape the request, which the fetch parameter stands for.
- HTML parsing: Jsoup's `select`, `attr` and `text` are a foreign library. Result blocks and page links are inputs.
- Java's `toLowerCase` is locale-aware Unicode lowering; `Text.ToLower` lowers ASCII letters only.
- Java's `split`, `replaceAll` and `split(keyword, -1)` take regular expressions. The patterns in the code have no metacharacters, but the 1.0 search keyword can, and then `split` throws `PatternSyntaxException`, which nothing catches.
- QueryService1.CountOccurrences: assumes the keyword is literal, because regular-expression matching is not modelled.
- QueryService1.SortByScoreContract: integer overflow in the comparator `scores.get(e2) - scores.get(e1)` is not modelled, because it needs score gaps above 2^31.
- IEEE `double` arithmetic: every weight is a multiple of 0.5 and sums are exact in the range that occurs, so scores are `real`.
- `isValidUrl` delegates to `java.net.URL` and is a parameter.
- The 5.0 `SearchEngine` is not part of this model; the 5.0 endpoint takes the ranking as a parameter.
- Revision 4.0's `pickTwoSubLinks` parses the page's visible text (`doc.text()`), not its HTML, so it usually finds no links. The model keeps this behaviour by taking links as a function `linksOf` of that text.
- `SIX_FRIENDS_WEIGHT` in 3.0 and 4.0 is declared but never used, so no rule carries it.
- Logging, Spring wiring, the 3.0 controller (wiring only), the `script.js` front ends and the `SearchResult`/`WebPage` holders beyond their fields.
- SearchEngine2.SearchAndSort: the fallback branch fetches and scores the Wikipedia page a second time; the model reuses the same fetch outcome, and the branch is proved never to add anything.
